// What the Poly1305 of Rfc7539 computes, told without its definitions: the clamp byte by byte, the
// message loop as one polynomial, and the tag as a number.
module Poly1305Laws {
  import opened Words
  import opened Bits
  import opened Bytes
  import opened Rfc7539
  import opened Poly1305Mac

  // ----- The clamp -----

  lemma {:induction false} AndBytes(b: seq<uint8>, m: seq<uint8>, c: seq<uint8>)
    requires |b| == |m| == |c| && forall i :: 0 <= i < |b| ==> c[i] as int == And(b[i] as int, m[i] as int)
    ensures And(Le(b), Le(m)) == Le(c)
  {
    hide And;
    if |b| == 0 {
      NothingToMask();
    } else {
      AndBytes(b[1..], m[1..], c[1..]);
      Pow2Values();
      AndSplit(b[0] as int, Le(b[1..]), m[0] as int, Le(m[1..]), 8);
    }
  }

  lemma NothingToMask()
    ensures And(0, 0) == 0
  {
  }

  // r &= 0x0ffffffc0ffffffc0ffffffc0fffffff: the top four bits of bytes 3, 7, 11 and 15 and the low
  // two of bytes 4, 8 and 12 are cleared, and nothing else.
  lemma ClampBytes(b: seq<uint8>, c: seq<uint8>)
    requires |b| == |c| == 16
    requires forall i :: 0 <= i < 16 ==>
      c[i] as int == (if i == 3 || i == 7 || i == 11 || i == 15 then b[i] as int % 16
                      else if i == 4 || i == 8 || i == 12 then b[i] as int - b[i] as int % 4
                      else b[i] as int)
    ensures ClampR(b) == Le(c)
  {
    hide And, Le;
    var m: seq<uint8> := [255, 255, 255, 15, 252, 255, 255, 15, 252, 255, 255, 15, 252, 255, 255, 15];
    MaskNumber(m);
    forall i | 0 <= i < 16 ensures c[i] as int == And(b[i] as int, m[i] as int) {
      MaskedByte(b[i]);
    }
    AndBytes(b, m, c);
  }

  lemma MaskNumber(m: seq<uint8>)
    requires m == [255, 255, 255, 15, 252, 255, 255, 15, 252, 255, 255, 15, 252, 255, 255, 15]
    ensures Le(m) == 0x0fff_fffc_0fff_fffc_0fff_fffc_0fff_ffff
  {
    hide Le;
    FourLe4(m);
    Le4(m[0..4]);
    Le4(m[4..8]);
    Le4(m[8..12]);
    Le4(m[12..16]);
  }

  lemma MaskedByte(x: uint8)
    ensures And(x as int, 255) == x as int && And(x as int, 15) == x as int % 16
    ensures And(x as int, 252) == x as int - x as int % 4
  {
    hide And, Pow2;
    SmallPow2();
    Pow2Values();
    AndLowMask(x as int, 8);
    AndLowMask(x as int, 4);
    LowTwoCleared(x as int);
  }

  lemma LowTwoCleared(n: nat)
    requires n < 256
    ensures And(n, 252) == n - n % 4
  {
    hide And, Pow2;
    SmallPow2();
    var h, q := n / 2, n / 2 / 2;
    EvenMask(n, 126);
    EvenMask(h, 63);
    AndLowMask(q, 6);
    Quarter(n, q);
  }

  lemma Quarter(n: nat, q: nat)
    requires n < 256 && q == n / 2 / 2
    ensures q % 64 == q && 4 * q == n - n % 4
  {
  }

  // ----- The message loop -----

  // One block of up to 16 bytes; with MacSumConcat this is the whole loop.
  lemma OneBlock(a: nat, block: seq<uint8>, r: nat)
    requires 0 < |block| <= 16
    ensures MacSum(a, block, r) == (a + Le(block) + Pow2(8 * |block|)) * r % (Pow2(130) - 5)
  {
    hide Le, Pow2, Pow256;
    Pow2Values();
    Pow2Add(128, 2);
    SmallPow2();
    Pow256IsPow2(|block|);
  }

  function Power(r: nat, n: nat): nat { if n == 0 then 1 else r * Power(r, n - 1) }

  // The number of blocks.
  function Blocks(msg: seq<uint8>): nat { (|msg| + 15) / 16 }

  // The sum over all blocks of the number of the block with a one behind its last byte, times the
  // power of r by which it stands before the end of the message.
  function Polynomial(msg: seq<uint8>, r: nat): nat
    decreases |msg|
  {
    if |msg| == 0 then 0
    else
      var n := if |msg| < 16 then |msg| else 16;
      (Le(msg[..n]) + Pow2(8 * n)) * Power(r, Blocks(msg)) + Polynomial(msg[n..], r)
  }

  lemma {:induction false} MacIsPolynomial(a: nat, msg: seq<uint8>, r: nat)
    requires |msg| > 0
    ensures MacSum(a, msg, r) == (a * Power(r, Blocks(msg)) + Polynomial(msg, r)) % P1305
    decreases |msg|
  {
    hide Le, Pow2, Pow256;
    var n := if |msg| < 16 then |msg| else 16;
    var c := Le(msg[..n]) + Pow2(8 * n);
    Pow256IsPow2(n);
    if |msg| <= 16 {
      assert msg[..n] == msg && msg[n..] == [];
      assert MacSum(a, msg, r) == (a + c) * r % P1305;
      LastTerm(a, c, r);
    } else {
      var m, p := MacStep(a, msg[..16], r), Power(r, Blocks(msg[16..]));
      assert m == (a + c) * r % P1305;
      assert Blocks(msg) == Blocks(msg[16..]) + 1;
      MacIsPolynomial(m, msg[16..], r);
      NextTerm(a, c, r, p, Polynomial(msg[16..], r), m);
    }
  }

  lemma LastTerm(a: nat, c: nat, r: nat)
    ensures (a + c) * r % P1305 == (a * Power(r, 1) + (c * Power(r, 1) + 0)) % P1305
  {
    assert Power(r, 1) == r * Power(r, 0);
    assert (a + c) * r == a * r + c * r;
  }

  lemma NextTerm(a: nat, c: nat, r: nat, p: nat, rest: nat, m: nat)
    requires m == (a + c) * r % P1305
    ensures (m * p + rest) % P1305 == (a * (r * p) + (c * (r * p) + rest)) % P1305
  {
    var t := (a + c) * r;
    var q := t / P1305;
    assert t == P1305 * q + m;
    assert t * p == a * (r * p) + c * (r * p);
    assert t * p == P1305 * (q * p) + m * p by {
      assert (P1305 * q + m) * p == P1305 * (q * p) + m * p;
    }
    SameResidue1305(m * p + rest, q * p);
  }

  lemma SameResidue1305(v: int, q: int)
    ensures (v + P1305 * q) % P1305 == v % P1305
  {
    var d, r := v / P1305, v % P1305;
    assert v + P1305 * q == P1305 * (d + q) + r;
    DivModUnique(v + P1305 * q, P1305, d + q, r);
  }

  // The tag is the value of the message at r modulo 2^130 - 5, plus the second half of the key,
  // modulo 2^128; r is the first half, clamped.
  lemma TagValue(key: seq<uint8>, msg: seq<uint8>, c: seq<uint8>)
    requires |key| == 32 && |c| == 16
    requires forall i :: 0 <= i < 16 ==>
      c[i] as int == (if i == 3 || i == 7 || i == 11 || i == 15 then key[i] as int % 16
                      else if i == 4 || i == 8 || i == 12 then key[i] as int - key[i] as int % 4
                      else key[i] as int)
    ensures Le(Poly1305(key, msg)) == (Polynomial(msg, Le(c)) % (Pow2(130) - 5) + Le(key[16..])) % Pow2(128)
  {
    hide Le, ToLe, ClampR, Pow2, Pow256, MacSum, Polynomial;
    ClampBytes(key[..16], c);
    Pow2Values();
    Pow2Add(128, 2);
    SmallPow2();
    Pow256IsPow2(16);
    MessageValue(msg, Le(c));
    var v := MacSum(0, msg, Le(c)) + Le(key[16..]);
    LeOfToLe(v % 0x1_0000_0000_0000_0000_0000_0000_0000_0000, 16);
  }

  lemma MessageValue(msg: seq<uint8>, r: nat)
    ensures MacSum(0, msg, r) == Polynomial(msg, r) % P1305
  {
    hide Le, Pow2, Pow256;
    if |msg| > 0 {
      MacIsPolynomial(0, msg, r);
    }
  }
}
