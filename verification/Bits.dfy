// The bitwise operators of C on unsigned words, by recursion on the binary digits. The lemmas
// say which arithmetic the masks, shifts and exclusive-ors of the code stand for.
module Bits {
  function Pow2(n: nat): (r: nat)
    ensures r > 0
  {
    if n == 0 then 1 else 2 * Pow2(n - 1)
  }

  lemma {:induction false} Pow2Add(a: nat, b: nat)
    ensures Pow2(a + b) == Pow2(a) * Pow2(b)
  {
    if a != 0 {
      Pow2Add(a - 1, b);
    }
  }

  lemma SmallPow2()
    ensures Pow2(0) == 1 && Pow2(1) == 2 && Pow2(2) == 4 && Pow2(3) == 8 && Pow2(4) == 16 && Pow2(5) == 32
    ensures Pow2(6) == 64 && Pow2(7) == 128
  {
  }

  lemma Pow2Values()
    ensures Pow2(8) == 0x100
    ensures Pow2(16) == 0x10000
    ensures Pow2(32) == 0x1_0000_0000
    ensures Pow2(64) == 0x1_0000_0000_0000_0000
    ensures Pow2(128) == 0x1_0000_0000_0000_0000_0000_0000_0000_0000
  {
    assert Pow2(8) == 0x100;
    Pow2Add(8, 8);
    Pow2Add(16, 16);
    Pow2Add(32, 32);
    Pow2Add(64, 64);
  }

  lemma Pow2_255()
    ensures Pow2(251) == 0x800000000000000000000000000000000000000000000000000000000000000
    ensures Pow2(254) == 0x4000000000000000000000000000000000000000000000000000000000000000
    ensures Pow2(255) == 0x8000000000000000000000000000000000000000000000000000000000000000
    ensures Pow2(256) == 0x1_0000000000000000000000000000000000000000000000000000000000000000
  {
    Pow2Values();
    Pow2Add(128, 64);
    Pow2Add(192, 32);
    Pow2Add(224, 16);
    Pow2Add(240, 8);
    assert Pow2(3) == 8;
    Pow2Add(248, 3);
    Pow2Add(251, 3);
    assert Pow2(255) == 2 * Pow2(254) && Pow2(256) == 2 * Pow2(255);
  }

  // x >> k and x << k on numbers, with no bit lost.
  function Shr(x: nat, k: nat): nat {
    hide Pow2;
    x / Pow2(k)
  }

  function Shl(x: nat, k: nat): nat {
    hide Pow2;
    x * Pow2(k)
  }

  function And(a: nat, b: nat): nat {
    if a == 0 || b == 0 then 0 else 2 * And(a / 2, b / 2) + (if a % 2 == 1 && b % 2 == 1 then 1 else 0)
  }

  function Or(a: nat, b: nat): nat {
    if a == 0 then b else if b == 0 then a
    else 2 * Or(a / 2, b / 2) + (if a % 2 == 1 || b % 2 == 1 then 1 else 0)
  }

  function Xor(a: nat, b: nat): nat
    decreases a + b
  {
    if a == 0 then b else if b == 0 then a
    else 2 * Xor(a / 2, b / 2) + (if a % 2 != b % 2 then 1 else 0)
  }

  // x & (2^k - 1) is x mod 2^k.
  lemma {:induction false} AndLowMask(a: nat, k: nat)
    ensures And(a, Pow2(k) - 1) == a % Pow2(k)
  {
    if a == 0 || k == 0 {
      NothingMasked(a, Pow2(k));
    } else {
      var m, h, x := Pow2(k), Pow2(k - 1), And(a, Pow2(k) - 1);
      assert m == 2 * h;
      hide And, Pow2;
      AndLowMask(a / 2, k - 1);
      LowMaskStep(a, m - 1, h - 1);
      ModDouble(a, h);
      assert x == 2 * (a / 2 % h) + a % 2;
    }
  }

  lemma NothingMasked(a: nat, m: nat)
    requires m > 0 && (a == 0 || m == 1)
    ensures And(a, m - 1) == a % m
  {
    if a == 0 {
      DivModUnique(0, m, 0, 0);
    }
  }

  lemma LowMaskStep(a: nat, m: nat, h: nat)
    requires m == 2 * h + 1 && a > 0
    ensures And(a, m) == 2 * And(a / 2, h) + a % 2
  {
  }

  lemma ModDouble(a: nat, m: nat)
    requires m > 0
    ensures a % (2 * m) == 2 * (a / 2 % m) + a % 2
  {
    var h := a / 2;
    var q, r := h / m, h % m;
    assert h == m * q + r;
    assert a == 2 * m * q + (2 * r + a % 2);
    DivModUnique(a, 2 * m, q, 2 * r + a % 2);
  }

  lemma DivModUnique(a: int, m: int, q: int, r: int)
    requires m > 0 && 0 <= r < m && a == m * q + r
    ensures a / m == q && a % m == r
  {
    var q', r' := a / m, a % m;
    assert a == m * q' + r';
    assert m * (q - q') == r' - r;
    if q > q' {
      assert m * (q - q') >= m by { MulMonotone(m, 1, q - q'); }
    } else if q < q' {
      assert m * (q' - q) >= m by { MulMonotone(m, 1, q' - q); }
    }
  }

  lemma DivDiv(n: nat, a: nat, b: nat)
    requires a > 0 && b > 0
    ensures a * b > 0 && n / a / b == n / (a * b)
  {
    var q, r := n / a, n % a;
    var q', r' := q / b, q % b;
    assert n == a * q + r && q == b * q' + r';
    MulMonotone(a, r', b - 1);
    assert a * (b * q' + r') == (a * b) * q' + a * r';
    MulMonotone(a, 1, b);
    DivModUnique(n, a * b, q', a * r' + r);
  }

  // Bits above m and below s do not matter to the w-wide digit at s.
  lemma Extract(v: nat, s: nat, w: nat, k: nat)
    requires s > 0 && w > 0 && k > 0
    ensures s * w * k > 0 && v % (s * w * k) / s % w == v / s % w
  {
    MulMonotone(s, 1, w);
    MulMonotone(s * w, 1, k);
    var m := s * w * k;
    var q, r := v / m, v % m;
    var z := k * q;
    assert v == s * (w * z) + r by {
      assert m * q == s * (w * (k * q));
    }
    var d, e := r / s, r % s;
    assert s * (w * z + d) == s * (w * z) + s * d;
    DivModUnique(v, s, w * z + d, e);
    DivModUnique(w * z + d, w, z + d / w, d % w);
  }

  // The same for a window of v that starts at p.
  lemma ExtractAt(v: nat, p: nat, s: nat, w: nat, k: nat)
    requires p > 0 && s > 0 && w > 0 && k > 0
    ensures p * s > 0 && s * w * k > 0 && v / p % (s * w * k) / s % w == v / (p * s) % w
  {
    Extract(v / p, s, w, k);
    DivDiv(v, p, s);
  }

  lemma MulMonotone(m: int, a: int, b: int)
    requires 0 <= m && a <= b
    ensures m * a <= m * b
  {
  }

  // (a ^ b) ^ b == a
  lemma {:induction false} XorCancels(a: nat, b: nat)
    ensures Xor(Xor(a, b), b) == a
    ensures Xor(a, Xor(a, b)) == b
    decreases a + b
  {
    if a == 0 || b == 0 {
      XorSelf(a);
      XorSelf(b);
    } else {
      XorCancels(a / 2, b / 2);
      var c := Xor(a, b);
      assert c / 2 == Xor(a / 2, b / 2);
    }
  }

  // (a ^ c) ^ (b ^ c) == a ^ b
  lemma {:induction false} XorShared(a: nat, b: nat, c: nat)
    ensures Xor(Xor(a, c), Xor(b, c)) == Xor(a, b)
    decreases a + b + c
  {
    if a + b + c > 0 {
      hide Xor;
      XorShared(a / 2, b / 2, c / 2);
      XorStep(a, c);
      XorStep(b, c);
      XorStep(a, b);
      XorStep(Xor(a, c), Xor(b, c));
    }
  }

  lemma XorStep(a: nat, b: nat)
    ensures Xor(a, b) / 2 == Xor(a / 2, b / 2) && Xor(a, b) % 2 == (a + b) % 2
  {
    if a == 0 {
      assert Xor(a, b) == b && Xor(a / 2, b / 2) == b / 2;
    } else if b == 0 {
      assert Xor(a, b) == a && Xor(a / 2, b / 2) == a / 2;
    } else {
      assert Xor(a, b) == 2 * Xor(a / 2, b / 2) + (if a % 2 != b % 2 then 1 else 0);
      hide Xor;
      SumParity(a, b, Xor(a, b), Xor(a / 2, b / 2));
    }
  }

  lemma SumParity(a: nat, b: nat, x: nat, h: nat)
    requires x == 2 * h + (if a % 2 != b % 2 then 1 else 0)
    ensures x / 2 == h && x % 2 == (a + b) % 2
  {
  }

  lemma {:induction false} XorSelf(a: nat)
    ensures Xor(a, a) == 0
  {
    if a != 0 {
      XorSelf(a / 2);
    }
  }

  lemma {:induction false} XorBound(a: nat, b: nat, k: nat)
    requires a < Pow2(k) && b < Pow2(k)
    ensures Xor(a, b) < Pow2(k)
    decreases k
  {
    if a != 0 && b != 0 {
      XorBound(a / 2, b / 2, k - 1);
    }
  }

  // An or of parts that share no bit is their sum.
  lemma {:induction false} OrDisjoint(a: nat, b: nat, k: nat)
    requires a < Pow2(k)
    ensures Or(a, b * Pow2(k)) == a + b * Pow2(k)
    decreases k
  {
    if k == 0 || a == 0 || b == 0 {
    } else {
      var s := b * Pow2(k - 1);
      assert b * Pow2(k) == 2 * s;
      OrDisjoint(a / 2, b, k - 1);
      MulMonotone(b, 1, Pow2(k));
    }
  }

  // The lowest bit passes through an or with, and falls to an and with, an even number.
  lemma EvenMask(a: nat, s: nat)
    ensures And(a, 2 * s) == 2 * And(a / 2, s)
    ensures Or(a, 2 * s) == 2 * Or(a / 2, s) + a % 2
  {
  }

  // mask is all ones or all zeros: the selecting forms of the branch-free code.
  lemma {:induction false} AndAllOnes(a: nat, k: nat)
    requires a < Pow2(k)
    ensures And(a, Pow2(k) - 1) == a && And(Pow2(k) - 1, a) == a
  {
    AndLowMask(a, k);
    AndCommutes(a, Pow2(k) - 1);
    DivModUnique(a, Pow2(k), 0, a);
  }

  lemma {:induction false} AndBound(a: nat, b: nat)
    ensures And(a, b) <= a && And(a, b) <= b
  {
    if a != 0 && b != 0 {
      AndBound(a / 2, b / 2);
    }
  }

  lemma {:induction false} XorCommutes(a: nat, b: nat)
    ensures Xor(a, b) == Xor(b, a)
  {
    if a != 0 && b != 0 {
      XorCommutes(a / 2, b / 2);
    }
  }

  lemma {:induction false} OrCommutes(a: nat, b: nat)
    ensures Or(a, b) == Or(b, a)
  {
    if a != 0 && b != 0 {
      OrCommutes(a / 2, b / 2);
    }
  }

  lemma {:induction false} AndCommutes(a: nat, b: nat)
    ensures And(a, b) == And(b, a)
  {
    if a != 0 && b != 0 {
      AndCommutes(a / 2, b / 2);
    }
  }
}
