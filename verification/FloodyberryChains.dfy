// curve25519/floodyberry/curve25519-donna-helpers.h: the addition chains shared by all limb
// formats. A bignum25519 is a cell that holds a field element; squaring and multiplication are
// taken at their meaning, and their operands may share a cell as they do in the source.
module FloodyberryChains {
  import opened Bits
  import opened Field25519

  class Bignum25519 {
    var value: int

    // curve25519_mul_noinline
    method MulNoinline(a: Bignum25519, b: Bignum25519)
      modifies this
      ensures value == Mul(old(a.value), old(b.value))
    {
      value := Mul(a.value, b.value);
    }

    // curve25519_square_times
    method SquareTimes(input: Bignum25519, count: nat)
      requires count >= 1 && 0 <= input.value < P
      modifies this
      ensures value == Pow(old(input.value), Pow2(count)) && 0 <= value < P
    {
      ghost var x := input.value;
      Pow1(x);
      var v, i := input.value, 0;
      while i < count
        invariant 0 <= i <= count && v == Pow(x, Pow2(i))
      {
        PowAdd(x, Pow2(i), Pow2(i));
        v := Mul(v, v);
        i := i + 1;
      }
      PowRange(x, Pow2(count));
      value := v;
    }
  }

  // A link of the chain: t0 = s^(2^n), out = t0 * b lengthens a run of m ones in the exponent by n.
  method Link(out: Bignum25519, t0: Bignum25519, s: Bignum25519, n: nat, b: Bignum25519, ghost x: int, ghost m: nat)
    requires n >= 1 && t0 != b && s.value == Pow(x, Pow2(m) - 1) && b.value == Pow(x, Pow2(n) - 1)
    modifies out, t0
    ensures out.value == Pow(x, Pow2(m + n) - 1)
  {
    hide Pow, Mul, Pow2;
    PowRange(x, Pow2(m) - 1);
    t0.SquareTimes(s, n);
    ExtendRun(x, m, n);
    out.MulNoinline(t0, b);
  }

  // curve25519_pow_two5mtwo0_two250mtwo0: from x^(2^5 - 1) to x^(2^250 - 1) in place.
  method PowTwo5MTwo0Two250MTwo0(b: Bignum25519, ghost x: int)
    requires b.value == Pow(x, Pow2(5) - 1)
    modifies b
    ensures b.value == Pow(x, Pow2(250) - 1)
  {
    hide Pow, Pow2;
    var t0, c := new Bignum25519, new Bignum25519;
    Link(b, t0, b, 5, b, x, 5);
    Link(c, t0, b, 10, b, x, 10);
    Link(t0, t0, c, 20, c, x, 20);
    Link(b, t0, t0, 10, b, x, 40);
    Link(c, t0, b, 50, b, x, 50);
    Link(t0, t0, c, 100, c, x, 100);
    Link(b, t0, t0, 50, b, x, 200);
  }

  // The common head of both chains: a = z^11 and b = z^31.
  method Head(a: Bignum25519, t0: Bignum25519, b: Bignum25519, z: Bignum25519)
    requires 0 <= z.value < P && a != t0 && a != b && t0 != b && z != a && z != t0 && z != b
    modifies a, t0, b
    ensures a.value == Pow(z.value, 11) && b.value == Pow(z.value, Pow2(5) - 1)
  {
    hide Pow, Mul, Pow2;
    ghost var x := z.value;
    SmallPowers(x);
    a.SquareTimes(z, 1);
    t0.SquareTimes(a, 2);
    b.MulNoinline(t0, z);
    a.MulNoinline(b, a);
    PowRange(x, 11);
    t0.SquareTimes(a, 1);
    b.MulNoinline(t0, b);
  }

  // curve25519_recip: z^(2^255 - 21)
  method Recip(out: Bignum25519, z: Bignum25519)
    requires 0 <= z.value < P
    modifies out
    ensures out.value == Pow(old(z.value), Pow2(255) - 21)
  {
    hide Pow, Mul, Pow2;
    ghost var x := z.value;
    var a, t0, b := new Bignum25519, new Bignum25519, new Bignum25519;
    Head(a, t0, b, z);
    PowTwo5MTwo0Two250MTwo0(b, x);
    PowRange(x, Pow2(250) - 1);
    b.SquareTimes(b, 5);
    InversionExponent();
    ShiftExponent(x, Pow2(250) - 1, 5, 11, P - 2);
    Pow2_255();
    out.MulNoinline(b, a);
  }

  // curve25519_pow_two252m3: z^(2^252 - 3)
  method PowTwo252M3(out: Bignum25519, z: Bignum25519)
    requires 0 <= z.value < P
    modifies out
    ensures out.value == Pow(old(z.value), Pow2(252) - 3)
  {
    hide Pow, Mul, Pow2;
    ghost var x := z.value;
    var b, c, t0 := new Bignum25519, new Bignum25519, new Bignum25519;
    Head(c, t0, b, z);
    PowTwo5MTwo0Two250MTwo0(b, x);
    PowRange(x, Pow2(250) - 1);
    b.SquareTimes(b, 2);
    RootExponent();
    ShiftExponent(x, Pow2(250) - 1, 2, 1, Pow2(252) - 3);
    Pow1(x);
    out.MulNoinline(b, z);
  }
}
