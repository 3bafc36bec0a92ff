// Section 5 of RFC 7748: scalar decoding and the X25519 ladder, on residues mod p.
module Rfc7748 {
  import opened Words
  import opened Bits
  import opened Bytes
  import opened Field25519

  // The coordinates (x_2 : z_2) and (x_3 : z_3).
  datatype State = State(x2: int, z2: int, x3: int, z3: int)

  function Bit(k: nat, t: nat): nat { k / Pow2(t) % 2 }

  function Swap(s: State): State { State(s.x3, s.z3, s.x2, s.z2) }

  function CSwap(bit: nat, s: State): State { if bit == 0 then s else Swap(s) }

  function Init(u: int): State { State(1, 0, u, 1) }

  const A24: int := 121665

  // One ladder step between the two conditional swaps, in the notation of the RFC.
  function DoubleAdd(u: int, s: State): State {
    var a := Add(s.x2, s.z2);
    var aa := Mul(a, a);
    var b := Sub(s.x2, s.z2);
    var bb := Mul(b, b);
    var e := Sub(aa, bb);
    var c := Add(s.x3, s.z3);
    var d := Sub(s.x3, s.z3);
    var da := Mul(d, a);
    var cb := Mul(c, b);
    var sum := Add(da, cb);
    var diff := Sub(da, cb);
    State(Mul(aa, bb), Mul(e, Add(aa, Mul(A24, e))), Mul(sum, sum), Mul(u, Mul(diff, diff)))
  }

  // The doubling of (x : z) over the integers, with the coefficient 486662 of the curve.
  lemma DoublingOnCurve(u: int, s: State)
    ensures var r, x, z := DoubleAdd(u, s), s.x2, s.z2;
      && r.x2 == Times(x * x - z * z, x * x - z * z) % P
      && r.z2 == Times(4 * (x * z), x * x + 486662 * (x * z) + z * z) % P
  {
    hide Add, Sub, Mul;
    var a, b := s.x2 + s.z2, s.x2 - s.z2;
    SumResidue(s.x2, s.z2);
    DifferenceResidue(s.x2, s.z2);
    MulResidues(a, a);
    MulResidues(b, b);
    var aa, e := a * a, a * a - b * b;
    SubResidues(aa, b * b);
    MulResidues(aa, b * b);
    ProductShift(e, A24);
    AddResidues(aa, e * A24);
    MulResidues(e, aa + e * A24);
    DoublingPolynomials(s.x2, s.z2);
  }

  // The sum of (x : z) and (x' : z'), whose difference is u.
  lemma SumOnCurve(u: int, s: State)
    ensures var r, x, z, x', z' := DoubleAdd(u, s), s.x2, s.z2, s.x3, s.z3;
      && r.x3 == 4 * Times(x * x' - z * z', x * x' - z * z') % P
      && r.z3 == 4 * Times(u, Times(x * z' - z * x', x * z' - z * x')) % P
  {
    hide Add, Sub, Mul;
    var x, z, x', z' := s.x2, s.z2, s.x3, s.z3;
    SumResidue(x, z);
    SumResidue(x', z');
    DifferenceResidue(x, z);
    DifferenceResidue(x', z');
    var f, g := (x' - z') * (x + z), (x' + z') * (x - z);
    MulResidues(x' - z', x + z);
    MulResidues(x' + z', x - z);
    AddResidues(f, g);
    SubResidues(f, g);
    MulResidues(f + g, f + g);
    MulResidues(f - g, f - g);
    ProductShift((f - g) * (f - g), u);
    SumPolynomials(x, z, x', z');
    var h := Times(x * z' - z * x', x * z' - z * x');
    assert (4 * h) * u == 4 * Times(u, h);
  }

  lemma SumResidue(x: int, y: int)
    ensures Add(x, y) == (x + y) % P
  {
  }

  lemma DifferenceResidue(x: int, y: int)
    ensures Sub(x, y) == (x - y) % P
  {
  }

  lemma DoublingPolynomials(x: int, z: int)
    ensures var a, b := x + z, x - z;
      && (a * a) * (b * b) == Times(x * x - z * z, x * x - z * z)
      && (a * a - b * b) * (a * a + (a * a - b * b) * A24) == Times(4 * (x * z), x * x + 486662 * (x * z) + z * z)
  {
    var a, b, p := x + z, x - z, x * z;
    assert a * a == x * x + 2 * p + z * z && b * b == x * x - 2 * p + z * z;
    assert a * b == x * x - z * z;
    assert (a * a) * (b * b) == (a * b) * (a * b);
  }

  lemma SumPolynomials(x: int, z: int, x': int, z': int)
    ensures var f, g := (x' - z') * (x + z) + (x' + z') * (x - z), (x' - z') * (x + z) - (x' + z') * (x - z);
      && f * f == 4 * Times(x * x' - z * z', x * x' - z * z')
      && g * g == 4 * Times(x * z' - z * x', x * z' - z * x')
  {
    var f, g := (x' - z') * (x + z) + (x' + z') * (x - z), (x' - z') * (x + z) - (x' + z') * (x - z);
    assert f == 2 * (x * x' - z * z') && g == -2 * (x * z' - z * x');
    SquareOfMultiple(2, x * x' - z * z');
    SquareOfMultiple(-2, x * z' - z * x');
  }

  lemma SquareOfMultiple(k: int, x: int)
    requires k == 2 || k == -2
    ensures (k * x) * (k * x) == 4 * Times(x, x)
  {
  }

  // The RFC's loop: the swap is carried in `swap` and applied at the next step.
  // Lazy(u, k, bits, t) holds after bits-1 down to t have been processed.
  function Lazy(u: int, k: nat, bits: nat, t: nat): (r: (State, nat))
    requires t <= bits
    ensures r.1 < 2
    decreases bits - t
  {
    if t == bits then (Init(u), 0)
    else
      var (s, swap) := Lazy(u, k, bits, t + 1);
      var kt := Bit(k, t);
      (DoubleAdd(u, CSwap((swap + kt) % 2, s)), kt)
  }

  // The affine coordinate x_2 / z_2, with the inverse written as a power.
  function Affine(s: State): int { Mul(s.x2, Pow(s.z2, P - 2)) }

  function X25519Field(k: nat, u: int): int {
    var (s, swap) := Lazy(u, k, 255, 0);
    Affine(CSwap(swap, s))
  }

  // decodeScalar25519: the three fixed bits set on the first and the last byte.
  function DecodeScalar(b: seq<uint8>): nat {
    Pow2(254) + 8 * (Le(b) / 8 % Pow2(251))
  }

  // decodeUCoordinate: the top bit is ignored and the rest taken mod p.
  function DecodeU(b: seq<uint8>): int { Le(b) % Pow2(255) % P }

  function X25519(scalar: seq<uint8>, point: seq<uint8>): seq<uint8> {
    ToLe(X25519Field(DecodeScalar(scalar), DecodeU(point)) % P, 32)
  }

  // The textbook form: swap, step, swap back.
  function Eager(u: int, k: nat, bits: nat, t: nat): State
    requires t <= bits
    decreases bits - t
  {
    if t == bits then Init(u)
    else
      var b := Bit(k, t);
      CSwap(b, DoubleAdd(u, CSwap(b, Eager(u, k, bits, t + 1))))
  }

  // The pending swap is the only difference between the two loops, at every step.
  lemma {:induction false} LazyIsEager(u: int, k: nat, bits: nat, t: nat)
    requires t <= bits
    ensures var (s, swap) := Lazy(u, k, bits, t); CSwap(swap, s) == Eager(u, k, bits, t)
    decreases bits - t
  {
    if t < bits {
      LazyIsEager(u, k, bits, t + 1);
      var (s, swap) := Lazy(u, k, bits, t + 1);
      SwapsCompose(swap, Bit(k, t), s);
    }
  }

  lemma SwapsCompose(a: nat, b: nat, s: State)
    requires a < 2 && b < 2
    ensures CSwap((a + b) % 2, s) == CSwap(b, CSwap(a, s))
  {
  }

  // e[0] &= 248, e[31] &= 127, e[31] |= 64, as every X25519 entry point starts.
  method Clamp(e: array<uint8>)
    requires e.Length == 32
    modifies e
    ensures Le(e[..]) == DecodeScalar(old(e[..]))
    ensures e[0] as int == old(e[0]) as int - old(e[0]) as int % 8 && e[31] as int == 64 + old(e[31]) as int % 64
    ensures forall i :: 0 < i < 31 ==> e[i] == old(e[i])
  {
    ghost var b := e[..];
    ClampedBytes(b[0] as int, b[31] as int);
    e[0] := And(e[0] as int, 248) as uint8;
    e[31] := And(e[31] as int, 127) as uint8;
    e[31] := Or(e[31] as int, 64) as uint8;
    ClampedValue(b, e[..]);
  }

  lemma ClampedBytes(x: nat, y: nat)
    requires x < 256 && y < 256
    ensures And(x, 248) == x / 8 * 8
    ensures And(y, 127) == y % 128 && Or(y % 128, 64) == 64 + y % 64
  {
    hide And, Or;
    AndHighBits(x);
    assert Pow2(7) == 128;
    AndLowMask(y, 7);
    OrBit6(y % 128);
  }

  lemma AndHighBits(x: nat)
    requires x < 256
    ensures And(x, 248) == x / 8 * 8
  {
    hide And;
    var h1 := x / 2;
    var h2 := h1 / 2;
    var h3 := h2 / 2;
    EvenMask(x, 124);
    EvenMask(h1, 62);
    EvenMask(h2, 31);
    AndFiveBits(h3);
    DivDiv(x, 2, 2);
    DivDiv(x, 4, 2);
  }

  lemma AndFiveBits(h: nat)
    requires h < 32
    ensures And(h, 31) == h
  {
    hide And;
    assert Pow2(5) == 32;
    AndAllOnes(h, 5);
  }

  lemma OrBit6(y: nat)
    requires y < 128
    ensures Or(y, 64) == 64 + y % 64
  {
    hide Or;
    var h1 := y / 2;
    var h2 := h1 / 2;
    var h3 := h2 / 2;
    EvenMask(y, 32);
    EvenMask(h1, 16);
    EvenMask(h2, 8);
    OrBit3(h3);
    DivModUnique(y, 64, h3 / 8, 8 * (h3 % 8) + 4 * (h2 % 2) + 2 * (h1 % 2) + y % 2);
  }

  lemma OrBit3(y: nat)
    requires y < 16
    ensures Or(y, 8) == 8 + y % 8
  {
    hide Or;
    var h1 := y / 2;
    var h2 := h1 / 2;
    EvenMask(y, 4);
    EvenMask(h1, 2);
    EvenMask(h2, 1);
    OrOne(h2 / 2);
  }

  lemma OrOne(b: nat)
    requires b < 2
    ensures Or(b, 1) == 1
  {
  }

  lemma Ends(b: seq<uint8>)
    requires |b| == 32
    ensures Le(b) == b[0] as int + 256 * Le(b[1..31])
      + 0x100000000000000000000000000000000000000000000000000000000000000 * b[31] as int
    ensures Le(b[1..31]) < 0x1_000000000000000000000000000000000000000000000000000000000000
  {
    hide Pow2, Pow256;
    var t := b[1..];
    assert t == b[1..31] + [b[31]];
    LeConcat(b[1..31], [b[31]]);
    LeBound(b[1..31]);
    Pow256Of30();
    assert Le([b[31]]) == b[31] as int + 256 * Le([]);
  }

  lemma Pow256Of30()
    ensures Pow256(30) == 0x1_000000000000000000000000000000000000000000000000000000000000
  {
    Pow256IsPow2(30);
    Pow2Values();
    Pow2Add(128, 64);
    Pow2Add(192, 32);
    Pow2Add(224, 16);
  }

  lemma ClampedValue(b: seq<uint8>, e: seq<uint8>)
    requires |b| == |e| == 32 && e[1..31] == b[1..31]
    requires e[0] as int == b[0] as int / 8 * 8 && e[31] as int == 64 + b[31] as int % 64
    ensures Le(e) == DecodeScalar(b)
  {
    hide Le;
    Ends(b);
    Ends(e);
    Pow2_255();
    var m, x, y := Le(b[1..31]), b[0] as int, b[31] as int;
    var w := 0x20000000000000000000000000000000000000000000000000000000000000;
    assert Le(b) / 8 == x / 8 + 32 * m + w * y;
    DivModUnique(Le(b) / 8, Pow2(251), y / 64, x / 8 + 32 * m + w * (y % 64));
  }

  // Bit pos of a little-endian byte string: 1 & (e[pos >> 3] >> (pos & 7)).
  lemma BitOfScalar(e: seq<uint8>, pos: nat)
    requires |e| == 32 && pos < 256
    ensures e[pos / 8] as int / Pow2(pos % 8) % 2 == Bit(Le(e), pos)
  {
    hide Le, Pow2, Pow256;
    var m, r := pos / 8, pos % 8;
    var v := Le(e) / Pow256(m);
    ByteAt(e, m);
    Pow256IsPow2(m);
    Pow2Add(8 * m, r);
    assert 8 * m + r == pos;
    DivDiv(Le(e), Pow256(m), Pow2(r));
    Pow2Add(r, 7 - r);
    SmallPow2();
    Extract(v, Pow2(r), 2, Pow2(7 - r));
    ByteModulus(Pow2(r), Pow2(7 - r));
  }

  lemma ByteModulus(a: nat, b: nat)
    requires a * b == 128
    ensures a * 2 * b == 256
  {
  }
}
