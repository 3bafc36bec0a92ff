// The ladder, the inversion and the conditional swap of curve25519/agl/curve25519-donna.c, on the
// field operations of Donna32.
module Donna32Ladder {
  import opened Words
  import opened Bits
  import opened Bytes
  import opened Field25519
  import opened Limbs26
  import opened Rfc7748
  import opened Donna32
  import DonnaC64

  ghost predicate Distinct(x2: array<int64>, z2: array<int64>, x3: array<int64>, z3: array<int64>,
      x: array<int64>, z: array<int64>, xprime: array<int64>, zprime: array<int64>, qmqp: array<int64>) {
    && x2 != z2 && x2 != x3 && x2 != z3 && x2 != x && x2 != z && x2 != xprime && x2 != zprime && x2 != qmqp
    && z2 != x3 && z2 != z3 && z2 != x && z2 != z && z2 != xprime && z2 != zprime && z2 != qmqp
    && x3 != z3 && x3 != x && x3 != z && x3 != xprime && x3 != zprime && x3 != qmqp
    && z3 != x && z3 != z && z3 != xprime && z3 != zprime && z3 != qmqp
    && x != z && x != xprime && x != zprime && x != qmqp
    && z != xprime && z != zprime && z != qmqp && xprime != zprime && xprime != qmqp && zprime != qmqp
  }

  // fproduct, freduce_degree, freduce_coefficients, as every product of fmonty is followed
  method ProductReduced(output: array<int64>, in2: array<int64>, input: array<int64>)
    requires output.Length == 19 && output != in2 && output != input && Bounded(in2, SUM) && Bounded(input, SUM)
    modifies output
    ensures Bounded(output, REDUCED) && Fe(output) == Mul(Fe(in2), Fe(input))
  {
    hide Sum, Mul, Times;
    FProduct(output, in2, input);
    ResidueOfProduct(Value(in2), Value(input));
    FReduceDegree(output);
    FReduceCoefficients(output);
  }

  lemma Widen(a: array<int64>)
    requires Bounded(a, REDUCED)
    ensures Bounded(a, SUM)
  {
  }

  // memcpy(origx, x); fsum(x, z); fdifference(z, origx)
  method SumAndDifference(x: array<int64>, z: array<int64>)
    requires Bounded(x, REDUCED) && Bounded(z, REDUCED) && x != z
    modifies x, z
    ensures Bounded(x, SUM) && Bounded(z, SUM)
    ensures Fe(x) == Add(old(Fe(x)), old(Fe(z))) && Fe(z) == Sub(old(Fe(x)), old(Fe(z)))
  {
    hide Sum, Add, Sub;
    var origx := new int64[10];
    Copy(origx, x);
    FSum(x, z);
    FDifference(z, origx);
  }

  // The two cross products, their sum and their difference.
  method CrossSums(x: array<int64>, z: array<int64>, xprime: array<int64>, zprime: array<int64>)
    returns (xxprime: array<int64>, zzprime: array<int64>)
    requires Bounded(x, SUM) && Bounded(z, SUM) && Bounded(xprime, SUM) && Bounded(zprime, SUM)
    ensures fresh(xxprime) && fresh(zzprime) && xxprime.Length == zzprime.Length == 19 && xxprime != zzprime
    ensures Bounded(xxprime, SUM) && Bounded(zzprime, SUM)
    ensures Fe(xxprime) == Add(Mul(Fe(xprime), Fe(z)), Mul(Fe(x), Fe(zprime)))
    ensures Fe(zzprime) == Sub(Mul(Fe(xprime), Fe(z)), Mul(Fe(x), Fe(zprime)))
  {
    hide *;
    xxprime, zzprime := new int64[19], new int64[19];
    ProductReduced(xxprime, xprime, z);
    ProductReduced(zzprime, x, zprime);
    SumAndDifference(xxprime, zzprime);
  }

  method AddPoints(x3: array<int64>, z3: array<int64>, x: array<int64>, z: array<int64>,
      xprime: array<int64>, zprime: array<int64>, qmqp: array<int64>)
    requires x3.Length >= 10 && z3.Length >= 10
    requires Bounded(x, SUM) && Bounded(z, SUM) && Bounded(xprime, SUM) && Bounded(zprime, SUM)
    requires Bounded(qmqp, REDUCED) && x3 != z3
    modifies x3, z3
    ensures Bounded(x3, REDUCED) && Bounded(z3, REDUCED)
    ensures var cb, da := old(Mul(Fe(xprime), Fe(z))), old(Mul(Fe(x), Fe(zprime)));
      && Fe(x3) == Pow(Add(cb, da), 2)
      && Fe(z3) == Mul(Pow(Sub(cb, da), 2), old(Fe(qmqp)))
  {
    hide *;
    var xxprime, zzprime := CrossSums(x, z, xprime, zprime);
    var xxxprime, zzzprime := new int64[19], new int64[19];
    FSquare(xxxprime, xxprime);
    FSquare(zzzprime, zzprime);
    Widen(zzzprime);
    Widen(qmqp);
    ProductReduced(zzprime, zzzprime, qmqp);
    Copy(x3, xxxprime);
    Copy(z3, zzprime);
  }

  method DoublePoint(x2: array<int64>, z2: array<int64>, x: array<int64>, z: array<int64>)
    requires x2.Length == z2.Length == 19 && x2 != z2 && x2 != x && x2 != z && z2 != x && z2 != z
    requires Bounded(x, SUM) && Bounded(z, SUM)
    modifies x2, z2
    ensures Bounded(x2, REDUCED) && Bounded(z2, REDUCED)
    ensures var aa, bb := old(Pow(Fe(x), 2)), old(Pow(Fe(z), 2));
      Fe(x2) == Mul(aa, bb) && Fe(z2) == Mul(Sub(aa, bb), Add(Mul(121665, Sub(aa, bb)), aa))
  {
    hide Sum, Add, Sub, Mul, Pow;
    var xx, zz, zzz := new int64[19], new int64[19], new int64[19];
    FSquare(xx, x);
    FSquare(zz, z);
    Widen(xx);
    Widen(zz);
    ProductReduced(x2, xx, zz);
    FDifference(zz, xx);
    FScalarProduct(zzz, zz, 121665);
    ScaledBound(zzz);
    FReduceCoefficients(zzz);
    FSum(zzz, xx);
    ProductReduced(z2, zz, zzz);
  }

  lemma ScaledBound(a: array<int64>)
    requires Bounded(a, 0x1000_0000_0000)
    ensures Bounded(a, 280 * 0x40000000000000)
  {
  }

  // One step of the ladder; every limb stays within 26 bits.
  method FMonty(x2: array<int64>, z2: array<int64>, x3: array<int64>, z3: array<int64>,
      x: array<int64>, z: array<int64>, xprime: array<int64>, zprime: array<int64>, qmqp: array<int64>)
    requires x2.Length == z2.Length == x3.Length == z3.Length == 19
    requires Bounded(x, REDUCED) && Bounded(z, REDUCED) && Bounded(xprime, REDUCED) && Bounded(zprime, REDUCED)
    requires Bounded(qmqp, REDUCED) && Distinct(x2, z2, x3, z3, x, z, xprime, zprime, qmqp)
    modifies x2, z2, x3, z3, x, z, xprime, zprime
    ensures Bounded(x2, REDUCED) && Bounded(z2, REDUCED) && Bounded(x3, REDUCED) && Bounded(z3, REDUCED)
    ensures State(Fe(x2), Fe(z2), Fe(x3), Fe(z3))
      == DoubleAdd(old(Fe(qmqp)), old(State(Fe(x), Fe(z), Fe(xprime), Fe(zprime))))
  {
    hide Sum, Add, Sub, Mul, Pow, DoubleAdd;
    ghost var s := State(Fe(x), Fe(z), Fe(xprime), Fe(zprime));
    DonnaC64.StepFormulas(Fe(qmqp), s);
    MulCommutes(121665, Sub(Pow(Add(s.x2, s.z2), 2), Pow(Sub(s.x2, s.z2), 2)));
    SumAndDifference(x, z);
    SumAndDifference(xprime, zprime);
    AddPoints(x3, z3, x, z, xprime, zprime, qmqp);
    DoublePoint(x2, z2, x, z);
  }

  // ----- swap_conditional -----

  // The 32 bits of an s32, and the s32 of 32 bits.
  function Bits32(a: int64): (u: nat)
    requires -0x8000_0000 <= a < 0x8000_0000
    ensures u < 0x1_0000_0000
  {
    if a < 0 then a as int + 0x1_0000_0000 else a as int
  }

  function Signed32(u: nat): (a: int64)
    requires u < 0x1_0000_0000
  {
    if u >= 0x8000_0000 then (u - 0x1_0000_0000) as int64 else u as int64
  }

  // x = swap & (a ^ b); a ^= x; b ^= x, with swap = -iswap
  function SwapLimbs32(iswap: int64, a: int64, b: int64): (r: (int64, int64))
    requires 0 <= iswap <= 1 && -0x8000_0000 <= a < 0x8000_0000 && -0x8000_0000 <= b < 0x8000_0000
    ensures r == if iswap == 1 then (b, a) else (a, b)
  {
    var swap := Bits32(-iswap);
    SwapBits(swap, Bits32(a), Bits32(b));
    hide And, Xor;
    var x := And(swap, Xor(Bits32(a), Bits32(b)));
    (Signed32(Xor(Bits32(a), x)), Signed32(Xor(Bits32(b), x)))
  }

  lemma SwapBits(swap: nat, a: nat, b: nat)
    requires (swap == 0 || swap == 0xffff_ffff) && a < 0x1_0000_0000 && b < 0x1_0000_0000
    ensures var x := And(swap, Xor(a, b));
      if swap == 0 then Xor(a, x) == a && Xor(b, x) == b else Xor(a, x) == b && Xor(b, x) == a
  {
    Pow2Values();
    XorBound(a, b, 32);
    AndAllOnes(Xor(a, b), 32);
    XorCancels(a, b);
    XorCommutes(a, b);
    XorCancels(b, a);
  }

  method SwapConditional(a: array<int64>, b: array<int64>, iswap: int64)
    requires Bounded(a, REDUCED) && Bounded(b, REDUCED) && a != b && 0 <= iswap <= 1
    modifies a, b
    ensures Bounded(a, REDUCED) && Bounded(b, REDUCED)
    ensures Fe(a) == old(if iswap == 1 then Fe(b) else Fe(a)) && Fe(b) == old(if iswap == 1 then Fe(a) else Fe(b))
  {
    hide Sum, SwapLimbs32;
    ghost var s, t := a[..], b[..];
    var i := 0;
    while i < 10
      invariant 0 <= i <= 10 && a.Length == |s| && b.Length == |t|
      invariant forall j :: 0 <= j < i ==> a[j] == if iswap == 1 then t[j] else s[j]
      invariant forall j :: 0 <= j < i ==> b[j] == if iswap == 1 then s[j] else t[j]
      invariant forall j :: i <= j < 10 ==> a[j] == s[j] && b[j] == t[j]
    {
      var limbs := SwapLimbs32(iswap, a[i], b[i]);
      a[i], b[i] := limbs.0, limbs.1;
      i := i + 1;
    }
    SumFrame(a[..], if iswap == 1 then t else s, 0, 10);
    SumFrame(b[..], if iswap == 1 then s else t, 0, 10);
  }

  // ----- cmult -----

  ghost function Coordinates(x: array<int64>, z: array<int64>, xprime: array<int64>, zprime: array<int64>): State
    requires x.Length >= 10 && z.Length >= 10 && xprime.Length >= 10 && zprime.Length >= 10
    reads x, z, xprime, zprime
  {
    State(Fe(x), Fe(z), Fe(xprime), Fe(zprime))
  }

  ghost predicate Ready(nqx: array<int64>, nqz: array<int64>, nqpqx: array<int64>, nqpqz: array<int64>,
      nqx2: array<int64>, nqz2: array<int64>, nqpqx2: array<int64>, nqpqz2: array<int64>, q: array<int64>)
    reads nqx, nqz, nqpqx, nqpqz, q
  {
    && nqx.Length == nqz.Length == nqpqx.Length == nqpqz.Length == 19
    && nqx2.Length == nqz2.Length == nqpqx2.Length == nqpqz2.Length == 19
    && Bounded(nqx, REDUCED) && Bounded(nqz, REDUCED) && Bounded(nqpqx, REDUCED) && Bounded(nqpqz, REDUCED)
    && Bounded(q, REDUCED) && Distinct(nqx2, nqz2, nqpqx2, nqpqz2, nqx, nqz, nqpqx, nqpqz, q)
  }

  method LadderStep(nqx2: array<int64>, nqz2: array<int64>, nqpqx2: array<int64>, nqpqz2: array<int64>,
      nqx: array<int64>, nqz: array<int64>, nqpqx: array<int64>, nqpqz: array<int64>, q: array<int64>, bit: int64)
    requires nqx.Length == nqz.Length == nqpqx.Length == nqpqz.Length == 19 && q.Length >= 10
    requires nqx2.Length == nqz2.Length == nqpqx2.Length == nqpqz2.Length == 19
    requires Ready(nqx, nqz, nqpqx, nqpqz, nqx2, nqz2, nqpqx2, nqpqz2, q) && 0 <= bit <= 1
    modifies nqx2, nqz2, nqpqx2, nqpqz2, nqx, nqz, nqpqx, nqpqz
    ensures Ready(nqx2, nqz2, nqpqx2, nqpqz2, nqx, nqz, nqpqx, nqpqz, q)
    ensures Fe(q) == old(Fe(q))
    ensures Coordinates(nqx2, nqz2, nqpqx2, nqpqz2)
      == CSwap(bit as int, DoubleAdd(Fe(q), CSwap(bit as int, old(Coordinates(nqx, nqz, nqpqx, nqpqz)))))
  {
    hide Sum, DoubleAdd, Below, Value;
    SwapConditional(nqx, nqpqx, bit);
    SwapConditional(nqz, nqpqz, bit);
    FMonty(nqx2, nqz2, nqpqx2, nqpqz2, nqx, nqz, nqpqx, nqpqz, q);
    SwapConditional(nqx2, nqpqx2, bit);
    SwapConditional(nqz2, nqpqz2, bit);
  }

  // limb a[19] = {first}
  method NewLimbs(first: int64) returns (a: array<int64>)
    requires 0 <= first <= 1
    ensures fresh(a) && a.Length == 19 && Bounded(a, REDUCED) && Fe(a) == first as int
  {
    a := new int64[19](i => if i == 0 then first else 0);
    FirstLimb(a[..]);
  }

  lemma FirstLimb(s: seq<int64>)
    requires |s| >= 10 && forall j :: 1 <= j < |s| ==> s[j] == 0
    ensures Sum(s, 0, 10) == s[0] as int
  {
    ZeroTail(s, 1);
    assert Times(s[0] as int, W(0)) == s[0] as int;
  }

  lemma {:induction false} ZeroTail(s: seq<int64>, lo: nat)
    requires |s| >= 10 && lo <= 10 && forall j :: lo <= j < |s| ==> s[j] == 0
    ensures Sum(s, lo, 10) == 0
    decreases 10 - lo
  {
    if lo < 10 {
      ZeroTail(s, lo + 1);
    }
  }

  method NewPair(x: int64, z: int64) returns (a: array<int64>, b: array<int64>)
    requires 0 <= x <= 1 && 0 <= z <= 1
    ensures fresh(a) && fresh(b) && a != b && a.Length == b.Length == 19
    ensures Bounded(a, REDUCED) && Bounded(b, REDUCED) && Fe(a) == x as int && Fe(b) == z as int
  {
    hide *;
    a := NewLimbs(x);
    b := NewLimbs(z);
  }

  // The declarations at the head of cmult: (1 : 0), (q : 1) and four spare buffers.
  method InitialBuffers(q: array<int64>)
    returns (nqpqx: array<int64>, nqpqz: array<int64>, nqx: array<int64>, nqz: array<int64>,
      nqpqx2: array<int64>, nqpqz2: array<int64>, nqx2: array<int64>, nqz2: array<int64>)
    requires Bounded(q, REDUCED)
    ensures fresh(nqx) && fresh(nqz) && fresh(nqpqx) && fresh(nqpqz)
    ensures fresh(nqx2) && fresh(nqz2) && fresh(nqpqx2) && fresh(nqpqz2)
    ensures nqx.Length == nqz.Length == nqpqx.Length == nqpqz.Length == 19
    ensures nqx2.Length == nqz2.Length == nqpqx2.Length == nqpqz2.Length == 19
    ensures Ready(nqx, nqz, nqpqx, nqpqz, nqx2, nqz2, nqpqx2, nqpqz2, q)
    ensures Coordinates(nqx, nqz, nqpqx, nqpqz) == State(1, 0, Fe(q), 1)
  {
    hide Fe, Below;
    nqpqx2, nqpqz2 := NewPair(0, 1);
    nqx2, nqz2 := NewPair(0, 1);
    nqpqx, nqpqz := NewPair(0, 1);
    nqx, nqz := NewPair(1, 0);
    Copy(nqpqx, q);
  }

  lemma Finished(nqx: array<int64>, nqz: array<int64>, nqpqx: array<int64>, nqpqz: array<int64>,
      nqx2: array<int64>, nqz2: array<int64>, nqpqx2: array<int64>, nqpqz2: array<int64>, q: array<int64>)
    requires Ready(nqx, nqz, nqpqx, nqpqz, nqx2, nqz2, nqpqx2, nqpqz2, q)
    ensures Bounded(nqx, REDUCED) && Bounded(nqz, REDUCED)
    ensures var s := Coordinates(nqx, nqz, nqpqx, nqpqz); s.x2 == Fe(nqx) && s.z2 == Fe(nqz)
  {
  }

  method CMult(resultx: array<int64>, resultz: array<int64>, n: array<uint8>, q: array<int64>)
    requires resultx.Length >= 10 && resultz.Length >= 10 && resultx != resultz && n.Length == 32
    requires q.Length >= 10 && Bounded(q, REDUCED)
    modifies resultx, resultz
    ensures Bounded(resultx, REDUCED) && Bounded(resultz, REDUCED)
    ensures var s := Eager(old(Fe(q)), Le(n[..]), 256, 0);
      Fe(resultx) == s.x2 && Fe(resultz) == s.z2
  {
    hide *;
    ghost var u, k := Fe(q), Le(n[..]);
    var nqpqx, nqpqz, nqx, nqz, nqpqx2, nqpqz2, nqx2, nqz2 := InitialBuffers(q);
    DonnaC64.EagerStart(u, k);
    var i := 0;
    while i < 32
      invariant 0 <= i <= 32
      invariant fresh(nqx) && fresh(nqz) && fresh(nqpqx) && fresh(nqpqz)
      invariant fresh(nqx2) && fresh(nqz2) && fresh(nqpqx2) && fresh(nqpqz2)
      invariant nqx.Length == nqz.Length == nqpqx.Length == nqpqz.Length == 19
      invariant nqx2.Length == nqz2.Length == nqpqx2.Length == nqpqz2.Length == 19
      invariant Ready(nqx, nqz, nqpqx, nqpqz, nqx2, nqz2, nqpqx2, nqpqz2, q)
      invariant Coordinates(nqx, nqz, nqpqx, nqpqz) == Eager(u, k, 256, 256 - 8 * i) && Fe(q) == u
    {
      var byte := n[31 - i];
      DonnaC64.FirstShift(byte as int);
      var j := 0;
      while j < 8
        invariant 0 <= j <= 8
        invariant fresh(nqx) && fresh(nqz) && fresh(nqpqx) && fresh(nqpqz)
        invariant fresh(nqx2) && fresh(nqz2) && fresh(nqpqx2) && fresh(nqpqz2)
        invariant nqx.Length == nqz.Length == nqpqx.Length == nqpqz.Length == 19
        invariant nqx2.Length == nqz2.Length == nqpqx2.Length == nqpqz2.Length == 19
        invariant Ready(nqx, nqz, nqpqx, nqpqz, nqx2, nqz2, nqpqx2, nqpqz2, q)
        invariant byte as int == n[31 - i] as int * Pow2(j) % 256
        invariant Coordinates(nqx, nqz, nqpqx, nqpqz) == Eager(u, k, 256, 256 - 8 * i - j) && Fe(q) == u
      {
        DonnaC64.TopBit(n[..], i, j, byte);
        var bit := byte as int64 / 128;
        LadderStep(nqx2, nqz2, nqpqx2, nqpqz2, nqx, nqz, nqpqx, nqpqz, q, bit);
        DonnaC64.EagerStep(u, k, 255 - 8 * i - j);
        nqx, nqx2 := nqx2, nqx;
        nqz, nqz2 := nqz2, nqz;
        nqpqx, nqpqx2 := nqpqx2, nqpqx;
        nqpqz, nqpqz2 := nqpqz2, nqpqz;
        byte := (byte as int * 2 % 256) as uint8;
        j := j + 1;
      }
      i := i + 1;
    }
    Finished(nqx, nqz, nqpqx, nqpqz, nqx2, nqz2, nqpqx2, nqpqz2, q);
    Copy(resultx, nqx);
    Copy(resultz, nqz);
  }

  // ----- crecip -----

  // n squarings of src for an even n, to and fro between two buffers, ending in t1.
  method SquareRun(t0: array<int64>, t1: array<int64>, src: array<int64>, n: nat)
    requires t0.Length == t1.Length == 10 && t0 != t1 && src != t0 && Bounded(src, SUM) && n >= 2 && n % 2 == 0
    modifies t0, t1
    ensures Bounded(t1, SUM) && Fe(t1) == Pow(old(Fe(src)), Pow2(n))
  {
    hide Sum, Pow, Below, Value;
    ghost var x := Fe(src);
    SmallPow2();
    FSquare(t0, src);
    Widen(t0);
    FSquare(t1, t0);
    Widen(t1);
    PowMul(x, 2, 2);
    var i := 2;
    while i < n
      invariant 2 <= i <= n && i % 2 == 0 && Bounded(t1, SUM) && Fe(t1) == Pow(x, Pow2(i))
    {
      FSquare(t0, t1);
      Widen(t0);
      FSquare(t1, t0);
      Widen(t1);
      TwoSquarings(x, i);
      i := i + 2;
    }
  }

  lemma TwoSquarings(x: int, i: nat)
    ensures Pow(Pow(Pow(x, Pow2(i)), 2), 2) == Pow(x, Pow2(i + 2))
  {
    hide Pow;
    PowMul(x, Pow2(i), 2);
    PowMul(x, Pow2(i) * 2, 2);
    assert Pow2(i + 2) == Pow2(i) * 2 * 2;
  }

  // Five squarings, ending in the first buffer.
  method FiveSquarings(t0: array<int64>, t1: array<int64>, src: array<int64>)
    requires t0.Length == t1.Length == 10 && t0 != t1 && src != t0 && Bounded(src, SUM)
    modifies t0, t1
    ensures Bounded(t0, SUM) && Fe(t0) == Pow(old(Fe(src)), Pow2(5))
  {
    hide Sum, Pow, Below, Value;
    ghost var x := Fe(src);
    SquareRun(t0, t1, src, 4);
    FSquare(t0, t1);
    Widen(t0);
    PowMul(x, Pow2(4), 2);
    SmallPow2();
  }

  // n squarings and a product: a run of m ones in the exponent of x becomes one of m + n.
  method Link(output: array<int64>, t0: array<int64>, t1: array<int64>, src: array<int64>, n: nat, b: array<int64>,
              ghost x: int, ghost m: nat)
    requires output.Length == t0.Length == t1.Length == 10 && t0 != t1 && src != t0 && b != t0 && b != t1
    requires Bounded(src, SUM) && Bounded(b, SUM) && n >= 2 && n % 2 == 0
    requires Fe(src) == Pow(x, Pow2(m) - 1) && Fe(b) == Pow(x, Pow2(n) - 1)
    modifies output, t0, t1
    ensures Bounded(output, SUM) && Fe(output) == Pow(x, Pow2(m + n) - 1)
  {
    hide *;
    SquareRun(t0, t1, src, n);
    ExtendRun(x, m, n);
    FMul(output, t1, b);
    Widen(output);
  }

  // The head of crecip: z^11 and z^31.
  method RecipHead(z11: array<int64>, z2_5_0: array<int64>, t0: array<int64>, t1: array<int64>, z: array<int64>)
    requires z11.Length == z2_5_0.Length == t0.Length == t1.Length == 10 && Bounded(z, SUM)
    requires z11 != z2_5_0 && z11 != t0 && z11 != t1 && z11 != z && z2_5_0 != t0 && z2_5_0 != t1 && z2_5_0 != z
    requires t0 != t1 && t0 != z && t1 != z
    modifies z11, z2_5_0, t0, t1
    ensures Bounded(z11, SUM) && Bounded(z2_5_0, SUM)
    ensures Fe(z11) == Pow(Fe(z), 11) && Fe(z2_5_0) == Pow(Fe(z), Pow2(5) - 1)
  {
    hide Sum, Pow, Below, Value, Mul;
    ghost var x := Fe(z);
    SmallPow2();
    SmallPowers(x);
    PowMul(Pow(x, 2), 2, 2);
    var z2, z9 := new int64[10], new int64[10];
    FSquare(z2, z);
    Widen(z2);
    FSquare(t1, z2);
    Widen(t1);
    FSquare(t0, t1);
    Widen(t0);
    FMul(z9, t0, z);
    Widen(z9);
    FMul(z11, z9, z2);
    Widen(z11);
    FSquare(t0, z11);
    Widen(t0);
    FMul(z2_5_0, t0, z9);
    Widen(z2_5_0);
  }

  // From 2^5 - 1 to 2^50 - 1.
  method RunOf50(z2_50_0: array<int64>, z2_5_0: array<int64>, t0: array<int64>, t1: array<int64>, ghost x: int)
    requires z2_50_0.Length == z2_5_0.Length == t0.Length == t1.Length == 10
    requires t0 != t1 && z2_5_0 != t0 && z2_5_0 != t1 && Bounded(z2_5_0, SUM) && Fe(z2_5_0) == Pow(x, Pow2(5) - 1)
    modifies z2_50_0, t0, t1
    ensures Bounded(z2_50_0, SUM) && Fe(z2_50_0) == Pow(x, Pow2(50) - 1)
  {
    hide *;
    var z2_10_0, z2_20_0 := new int64[10], new int64[10];
    FiveSquarings(t0, t1, z2_5_0);
    ExtendRun(x, 5, 5);
    FMul(z2_10_0, t0, z2_5_0);
    Widen(z2_10_0);
    Link(z2_20_0, t0, t1, z2_10_0, 10, z2_10_0, x, 10);
    Link(t0, t0, t1, z2_20_0, 20, z2_20_0, x, 20);
    Link(z2_50_0, t1, t0, t0, 10, z2_10_0, x, 40);
  }

  // From 2^50 - 1 to 2^250 - 1, which ends in t0.
  method RunOf250(z2_50_0: array<int64>, t0: array<int64>, t1: array<int64>, ghost x: int)
    requires z2_50_0.Length == t0.Length == t1.Length == 10 && t0 != t1 && z2_50_0 != t0 && z2_50_0 != t1
    requires Bounded(z2_50_0, SUM) && Fe(z2_50_0) == Pow(x, Pow2(50) - 1)
    modifies t0, t1
    ensures Bounded(t0, SUM) && Fe(t0) == Pow(x, Pow2(250) - 1)
  {
    hide *;
    var z2_100_0 := new int64[10];
    Link(z2_100_0, t0, t1, z2_50_0, 50, z2_50_0, x, 50);
    Link(t1, t1, t0, z2_100_0, 100, z2_100_0, x, 100);
    Link(t0, t0, t1, t1, 50, z2_50_0, x, 200);
  }

  method CRecip(out: array<int64>, z: array<int64>)
    requires out.Length == 10 && z.Length >= 10 && Bounded(z, REDUCED)
    modifies out
    ensures Bounded(out, REDUCED) && Fe(out) == Pow(old(Fe(z)), P - 2)
  {
    hide *;
    ghost var x := Fe(z);
    var z11, z2_5_0, z2_50_0 := new int64[10], new int64[10], new int64[10];
    var t0, t1 := new int64[10], new int64[10];
    Widen(z);
    RecipHead(z11, z2_5_0, t0, t1, z);
    RunOf50(z2_50_0, z2_5_0, t0, t1, x);
    RunOf250(z2_50_0, t0, t1, x);
    FiveSquarings(t1, t0, t0);
    InversionExponent();
    ShiftExponent(x, Pow2(250) - 1, 5, 11, P - 2);
    FMul(out, t1, z11);
  }
}
