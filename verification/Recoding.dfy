// The two signed-digit forms of a scalar in curve25519/boringssl/curve25519.c: slide, with
// sparse odd digits for the variable-time double multiplication, and the radix-16 digits of
// x25519_ge_scalarmult_base. Both are rewritten in place in an array of signed chars.
module Recoding {
  import opened Words
  import opened Bits
  import opened Bytes
  import opened Rfc7748

  // The number whose digits in base b are s, lowest first.
  function Horner(s: seq<int8>, b: nat): int {
    if |s| == 0 then 0 else s[0] as int + Times(b, Horner(s[1..], b))
  }

  function Weight(b: nat, i: nat): int {
    if i == 0 then 1 else Times(b, Weight(b, i - 1))
  }

  lemma {:induction false} HornerUpdate(s: seq<int8>, b: nat, i: nat, x: int8)
    requires i < |s|
    ensures Horner(s[i := x], b) == Horner(s, b) + Times(x as int - s[i] as int, Weight(b, i))
  {
    hide Times;
    var t := s[i := x];
    if i == 0 {
      assert t[1..] == s[1..];
      TimesOne(x as int - s[0] as int);
    } else {
      assert t[1..] == s[1..][i - 1 := x];
      HornerUpdate(s[1..], b, i - 1, x);
      TimesSum(b, Horner(s[1..], b), Times(x as int - s[i] as int, Weight(b, i - 1)));
      TimesSwap(b, x as int - s[i] as int, Weight(b, i - 1));
    }
  }

  lemma TimesSum(b: int, x: int, y: int)
    ensures Times(b, x + y) == Times(b, x) + Times(b, y)
  {
  }

  lemma TimesSwap(b: int, d: int, w: int)
    ensures Times(b, Times(d, w)) == Times(d, Times(b, w)) == Times(Times(b, d), w)
  {
    assert b * (d * w) == d * (b * w) == (b * d) * w;
  }

  lemma TimesOne(w: int)
    ensures Times(1, w) == w && Times(-1, w) == -w && Times(w, 1) == w
  {
  }

  lemma PeelDigit(s: seq<int8>, b: nat, i: nat)
    requires i < |s|
    ensures Horner(s[i..], b) == s[i] as int + Times(b, Horner(s[i + 1..], b))
  {
    assert s[i..][1..] == s[i + 1..];
  }

  lemma {:induction false} ZeroDigits(s: seq<int8>, b: nat)
    requires forall i :: 0 <= i < |s| ==> s[i] == 0
    ensures Horner(s, b) == 0
  {
    if |s| > 0 {
      ZeroDigits(s[1..], b);
    }
  }

  // The digits before i and from i on.
  lemma {:induction false} HornerSplit(s: seq<int8>, b: nat, i: nat)
    requires i <= |s|
    ensures Horner(s, b) == Horner(s[..i], b) + Times(Weight(b, i), Horner(s[i..], b))
  {
    hide Times;
    if i == 0 {
      assert s[0..] == s;
      TimesOne(Horner(s, b));
    } else {
      HornerSplit(s[1..], b, i - 1);
      assert s[1..][..i - 1] == s[..i][1..] && s[1..][i - 1..] == s[i..];
      var w, h := Weight(b, i - 1), Horner(s[i..], b);
      TimesSwap(b, w, h);
      TimesSum(b, Horner(s[..i][1..], b), Times(w, h));
    }
  }

  lemma {:induction false} BinaryWeight(i: nat)
    ensures Weight(2, i) == Pow2(i)
  {
    if i > 0 {
      BinaryWeight(i - 1);
    }
  }

  method Put(r: array<int8>, i: nat, x: int8, ghost b: nat)
    requires i < r.Length
    modifies r
    ensures r[..] == old(r[..])[i := x]
    ensures Horner(r[..], b) == old(Horner(r[..], b)) + Times(x as int - old(r[i]) as int, Weight(b, i))
  {
    ghost var t := r[..];
    r[i] := x;
    assert r[..] == t[i := x];
    HornerUpdate(t, b, i, x);
  }

  // ----- slide -----

  ghost predicate BitsFrom(r: array<int8>, k: nat)
    reads r
  {
    forall j :: k <= j < r.Length ==> r[j] == 0 || r[j] == 1
  }

  ghost predicate ZeroIn(r: array<int8>, lo: nat, hi: nat)
    reads r
  {
    forall j :: lo <= j < hi && j < r.Length ==> r[j] == 0
  }

  // A digit of the sliding-window form.
  predicate SlideDigit(d: int8) {
    d == 0 || (d % 2 == 1 && -15 <= d <= 15)
  }

  // The innermost loop: one is added to the bits from k on. When all of them are ones the carry
  // falls off the end.
  method AddCarry(r: array<int8>, k: nat) returns (ghost lost: bool)
    requires r.Length == 256 && k < 256 && BitsFrom(r, k)
    modifies r
    ensures BitsFrom(r, k) && r[..k] == old(r[..k])
    ensures old(r[k]) == 1 ==> r[k] == 0
    ensures lost ==> ZeroIn(r, k, 256)
    ensures Horner(r[..], 2) == old(Horner(r[..], 2)) + Pow2(k) - (if lost then Pow2(256) else 0)
  {
    hide Horner, Weight, Times, Pow2;
    var i := k;
    while i < 256
      invariant k <= i <= 256 && BitsFrom(r, k) && r[..k] == old(r[..k])
      invariant ZeroIn(r, k, i) && (i == k ==> r[k] == old(r[k]))
      invariant Horner(r[..], 2) == old(Horner(r[..], 2)) + Pow2(k) - Pow2(i)
    {
      BinaryWeight(i);
      if r[i] == 0 {
        Put(r, i, 1, 2);
        TimesOne(Weight(2, i));
        return false;
      }
      Put(r, i, 0, 2);
      TimesOne(Weight(2, i));
      Pow2Next(i);
      i := i + 1;
    }
    lost := true;
  }

  lemma Pow2Next(i: nat)
    ensures Pow2(i + 1) == 2 * Pow2(i)
  {
  }

  // The middle loop: the bits above i are drawn into digit i while it stays within 15.
  method Widen(r: array<int8>, i: nat) returns (ghost lost: bool)
    requires r.Length == 256 && i < 256 && r[i] == 1 && BitsFrom(r, i)
    modifies r
    ensures r[..i] == old(r[..i]) && BitsFrom(r, i + 1) && ZeroIn(r, i + 1, i + 5)
    ensures r[i] != 0 && SlideDigit(r[i])
    ensures lost ==> i + 4 < 256 && ZeroIn(r, i + 1, 256)
    ensures Horner(r[..], 2) == old(Horner(r[..], 2)) - (if lost then Pow2(256) else 0)
  {
    hide Horner, Weight, Times, Pow2;
    lost := false;
    var b := 1;
    ghost var was := r[..];
    while b <= 6 && i + b < 256
      invariant 1 <= b <= 7 && r[..i] == old(r[..i]) && BitsFrom(r, i + 1)
      invariant ZeroIn(r, i + 1, if b < 5 then i + b else i + 5)
      invariant r[i] % 2 == 1 && -15 <= r[i] <= 15 && (b <= 4 ==> 1 <= r[i] < Window(b))
      invariant lost ==> i + 4 < 256 && b > 4 && ZeroIn(r, i + 1, 256)
      invariant Horner(r[..], 2) == Horner(was, 2) - (if lost then Pow2(256) else 0)
    {
      if r[i + b] != 0 {
        var step := Window(b);
        DrawIn(i, b);
        if r[i] + step <= 15 {
          Put(r, i, r[i] + step, 2);
          Put(r, i + b, 0, 2);
        } else if r[i] - step >= -15 {
          Put(r, i, r[i] - step, 2);
          lost := AddCarry(r, i + b);
        } else {
          break;
        }
      }
      b := b + 1;
    }
  }

  // r[i + b] << b for r[i + b] = 1
  function Window(b: nat): (w: int8)
    requires b <= 6
    ensures w as int == Pow2(b)
  {
    SmallPow2();
    if b == 0 then 1 else if b == 1 then 2 else if b == 2 then 4 else if b == 3 then 8 else if b == 4 then 16
    else if b == 5 then 32 else 64
  }

  // A bit at i + b is worth 2^b at i.
  lemma DrawIn(i: nat, b: nat)
    requires 1 <= b <= 6
    ensures Times(Window(b) as int, Weight(2, i)) == Weight(2, i + b) == Pow2(i + b)
    ensures Times(-Window(b) as int, Weight(2, i)) == -Weight(2, i + b)
    ensures Times(-1, Weight(2, i + b)) == -Weight(2, i + b)
  {
    BinaryWeight(i);
    BinaryWeight(i + b);
    Pow2Add(i, b);
    SmallPow2();
  }

  lemma {:induction false} BitsValue(s: seq<int8>, n: nat, i: nat)
    requires i <= |s| && n < Pow2(|s|)
    requires forall j :: 0 <= j < |s| ==> s[j] as int == Bit(n, j)
    ensures Horner(s[i..], 2) == n / Pow2(i)
    decreases |s| - i
  {
    hide Horner, Pow2, Times;
    if i == |s| {
      assert s[i..] == [];
      ZeroDigits(s[i..], 2);
      DivModUnique(n, Pow2(i), 0, n);
    } else {
      BitsValue(s, n, i + 1);
      PeelDigit(s, 2, i);
      Pow2Next(i);
      DivDiv(n, Pow2(i), 2);
      TimesTwo(Horner(s[i + 1..], 2));
    }
  }

  // The first loop of slide.
  method Spread(r: array<int8>, a: array<uint8>)
    requires r.Length == 256 && a.Length == 32
    modifies r
    ensures BitsFrom(r, 0) && Horner(r[..], 2) == Le(a[..]) < Pow2(256)
  {
    hide Bit, Le, Pow2, Pow256, Horner;
    ghost var e := a[..];
    var i := 0;
    while i < 256
      invariant 0 <= i <= 256 && a[..] == e
      invariant forall j :: 0 <= j < i ==> r[j] as int == Bit(Le(e), j)
    {
      BitOfScalar(e, i);
      BitIsBit(Le(e), i);
      r[i] := (a[i / 8] as int / Pow2(i % 8) % 2) as int8;
      i := i + 1;
    }
    LeBound(e);
    Pow256IsPow2(32);
    BitsValue(r[..], Le(e), 0);
    assert r[0..] == r[..];
    forall j | 0 <= j < 256 ensures r[j] == 0 || r[j] == 1 {
      BitIsBit(Le(e), j);
    }
    DivByOne(Le(e));
  }

  lemma TimesTwo(w: int)
    ensures Times(2, w) == 2 * w
  {
  }

  lemma BitIsBit(n: nat, i: nat)
    ensures Bit(n, i) == 0 || Bit(n, i) == 1
  {
  }

  lemma DivByOne(n: nat)
    ensures n / Pow2(0) == n
  {
  }

  // What slide promises of its digits: zero or odd within 15, and nonzero ones at least five
  // places apart.
  ghost predicate Sparse(s: seq<int8>) {
    && (forall i :: 0 <= i < |s| ==> SlideDigit(s[i]))
    && (forall i, j :: 0 <= i < j < |s| && s[i] != 0 && s[j] != 0 ==> j - i >= 5)
  }

  // The digits before i are final, the bits from i on are free, and next is the first place at
  // which a further nonzero digit may stand.
  ghost predicate Settled(r: array<int8>, i: nat, next: nat)
    reads r
  {
    r.Length == 256 && i <= 256 && Sparse(r[..i])
    && (forall j :: 0 <= j < i && r[j] != 0 ==> j + 5 <= next)
    && BitsFrom(r, i) && ZeroIn(r, i, next)
  }

  // One more digit on top of the settled ones.
  lemma SettleDigit(s: seq<int8>, i: nat, next: nat)
    requires i < |s| && SlideDigit(s[i]) && Sparse(s[..i])
    requires forall j :: 0 <= j < i && s[j] != 0 ==> j + 5 <= next
    requires s[i] != 0 ==> next <= i
    ensures Sparse(s[..i + 1])
  {
    var t := s[..i + 1];
    forall j, k | 0 <= j < k < |t| && t[j] != 0 && t[k] != 0 ensures k - j >= 5 {
      assert s[..i][j] == t[j];
      if k < i {
        assert s[..i][k] == t[k];
      }
    }
    forall j | 0 <= j < |t| ensures SlideDigit(t[j]) {
      if j < i {
        assert s[..i][j] == t[j];
      }
    }
  }

  // Whether the carry of a window falls off the end, for the number n of the bits that are left
  // and the number of places for them: a window of 16 or more in its last five bits carries one
  // into the bits above it, and falls when those are all ones.
  predicate Lost(n: int, places: nat)
    decreases places
  {
    places >= 5 && n > 0 &&
    if n % 2 == 0 then Lost(n / 2, places - 1)
    else if n % 32 < 16 then Lost(n / 32, places - 5)
    else n / 32 + 1 == Pow2(places - 5) || Lost(n / 32 + 1, places - 5)
  }

  // What the digits of slide add up to.
  function DigitSum(n: nat): int { if Lost(n, 256) then n - Pow2(256) else n }

  lemma {:induction false} LostDouble(n: int, places: nat)
    requires places >= 1
    ensures Lost(2 * n, places) <==> Lost(n, places - 1)
  {
  }

  lemma LostTimes16(n: int, places: nat)
    requires places >= 5
    ensures Lost(16 * n, places - 1) <==> Lost(n, places - 5)
  {
    hide Lost;
    LostDouble(8 * n, places - 1);
    LostDouble(4 * n, places - 2);
    LostDouble(2 * n, places - 3);
    LostDouble(n, places - 4);
  }

  lemma {:induction false} BitsBound(s: seq<int8>)
    requires forall j :: 0 <= j < |s| ==> s[j] == 0 || s[j] == 1
    ensures 0 <= Horner(s, 2) < Pow2(|s|)
  {
    if |s| > 0 {
      BitsBound(s[1..]);
      TimesTwo(Horner(s[1..], 2));
    }
  }

  // Four zeros below bits that are left.
  lemma FourZeros(s: seq<int8>, i: nat)
    requires i + 5 <= |s| && s[i + 1] == 0 && s[i + 2] == 0 && s[i + 3] == 0 && s[i + 4] == 0
    ensures Horner(s[i + 1..], 2) == 16 * Horner(s[i + 5..], 2)
  {
    hide Horner;
    PeelDigit(s, 2, i + 1);
    PeelDigit(s, 2, i + 2);
    PeelDigit(s, 2, i + 3);
    PeelDigit(s, 2, i + 4);
    TimesTwo(Horner(s[i + 2..], 2));
    TimesTwo(Horner(s[i + 3..], 2));
    TimesTwo(Horner(s[i + 4..], 2));
    TimesTwo(Horner(s[i + 5..], 2));
  }

  // One window in the number of the bits from i on: h before, the digit and the rest after.
  lemma LostInWindow(s: seq<int8>, i: nat, h: int, fell: bool)
    requires |s| == 256 && i < 256 && 0 < h < Pow2(256 - i)
    requires s[i] % 2 == 1 && -15 <= s[i] <= 15
    requires forall j :: i < j < 256 ==> s[j] == 0 || s[j] == 1
    requires forall j :: i < j < i + 5 && j < 256 ==> s[j] == 0
    requires fell ==> i + 4 < 256 && forall j :: i < j < 256 ==> s[j] == 0
    requires s[i] as int + 2 * Horner(s[i + 1..], 2) == h - (if fell then Pow2(256 - i) else 0)
    ensures Lost(h, 256 - i) <==> fell || Lost(Horner(s[i + 1..], 2), 255 - i)
  {
    hide Horner, Pow2;
    if i + 4 < 256 {
      FourZeros(s, i);
      var z := Horner(s[i + 5..], 2);
      BitsBound(s[i + 5..]);
      Pow2Add(251 - i, 5);
      SmallPow2();
      if fell {
        ZeroDigits(s[i + 5..], 2);
        assert s[i] < 0;
      }
      LostTimes16(z, 256 - i);
      WindowRest(h, s[i] as int, if fell then Pow2(251 - i) else z, Pow2(251 - i));
      OnlyZero(251 - i);
    }
  }

  lemma OnlyZero(places: nat)
    ensures !Lost(0, places)
  {
  }

  lemma WindowRest(h: int, d: int, z: int, p: int)
    requires h == d + 32 * z && d % 2 == 1 && -15 <= d <= 15 && 0 <= z <= p && 0 < h < 32 * p
    ensures h % 2 == 1 && (d > 0 ==> h % 32 < 16 && h / 32 == z && z < p)
    ensures d < 0 ==> h % 32 >= 16 && h / 32 + 1 == z
  {
    assert h == 2 * (d / 2 + 16 * z) + 1;
    DivModUnique(h, 2, d / 2 + 16 * z, 1);
    if d > 0 {
      DivModUnique(h, 32, z, d);
    } else {
      DivModUnique(h, 32, z - 1, d + 32);
    }
  }

  // The bits from i on, before and after the window at i.
  lemma WindowValue(t: seq<int8>, s: seq<int8>, i: nat, fell: bool)
    requires |t| == |s| == 256 && i < 256 && t[..i] == s[..i]
    requires Horner(s, 2) == Horner(t, 2) - (if fell then Pow2(256) else 0)
    ensures s[i] as int + 2 * Horner(s[i + 1..], 2) == Horner(t[i..], 2) - (if fell then Pow2(256 - i) else 0)
  {
    hide Horner, Weight, Times, Pow2;
    HornerSplit(t, 2, i);
    HornerSplit(s, 2, i);
    BinaryWeight(i);
    Pow2Add(i, 256 - i);
    PeelDigit(s, 2, i);
    TimesTwo(Horner(s[i + 1..], 2));
    CancelWeight(Pow2(i), Horner(s[i..], 2), Horner(t[i..], 2), if fell then Pow2(256 - i) else 0);
  }

  lemma CancelWeight(w: int, x: int, y: int, z: int)
    requires w > 0 && Times(w, x) == Times(w, y) - w * z
    ensures x == y - z
  {
    assert w * (x - y + z) == 0;
  }

  // A carry falls only from a number above 2^255.
  lemma {:induction false} LostOnlyAbove(n: int, places: nat)
    requires Lost(n, places)
    ensures places >= 5 && n > Pow2(places - 1)
    decreases places
  {
    Pow2Next(places - 2);
    if n % 2 == 0 {
      LostOnlyAbove(n / 2, places - 1);
    } else {
      Pow2Add(places - 5, 4);
      SmallPow2();
      if n % 32 < 16 {
        LostOnlyAbove(n / 32, places - 5);
        Pow2Next(places - 6);
      } else if n / 32 + 1 != Pow2(places - 5) {
        LostOnlyAbove(n / 32 + 1, places - 5);
        Pow2Next(places - 6);
      }
    }
  }

  // The digits of 2^256 - 1 add up to -1: one window of 31 and a carry through all ones above it.
  lemma AllOnesLost()
    ensures Pow2(256) > 0 && Lost(Pow2(256) - 1, 256) && DigitSum(Pow2(256) - 1) == -1
  {
    hide *;
    OnesLost(256);
    LostSum(Pow2(256) - 1);
  }

  lemma LostSum(n: nat)
    requires Lost(n, 256)
    ensures DigitSum(n) == n - Pow2(256)
  {
  }

  lemma OnesLost(places: nat)
    requires places >= 5
    ensures Pow2(places) > 0 && Lost(Pow2(places) - 1, places)
  {
    hide Pow2;
    Pow2Add(places - 5, 5);
    SmallPow2();
    PositivePow(places - 5);
    AllOnes(Pow2(places - 5));
  }

  lemma AllOnes(p: int)
    requires p > 0
    ensures 32 * p - 1 > 0 && (32 * p - 1) % 2 == 1 && (32 * p - 1) % 32 == 31 && (32 * p - 1) / 32 + 1 == p
  {
  }

  // The digits of a: their number is a itself, except that a lost carry leaves a - 2^256.
  method Slide(r: array<int8>, a: array<uint8>)
    requires r.Length == 256 && a.Length == 32
    modifies r
    ensures Sparse(r[..])
    ensures Horner(r[..], 2) == DigitSum(Le(a[..]))
    ensures Horner(r[..], 2) == Le(a[..]) <==> !Lost(Le(a[..]), 256)
    ensures Le(a[..]) <= Pow2(255) ==> Horner(r[..], 2) == Le(a[..])
  {
    hide Horner, Weight, Times, Pow2, Le, Lost;
    Spread(r, a);
    ghost var n, next, lost := Le(a[..]), 0, false;
    assert r[..0] == [] && r[0..] == r[..];
    var i := 0;
    while i < 256
      invariant 0 <= i <= 256 && Settled(r, i, next) && Le(a[..]) == n
      invariant lost ==> ZeroIn(r, i, 256)
      invariant Horner(r[..], 2) == n - (if lost then Pow2(256) else 0)
      invariant Lost(n, 256) <==> lost || Lost(Horner(r[i..], 2), 256 - i)
    {
      if r[i] != 0 {
        ghost var t := r[..];
        ghost var fell := Widen(r, i);
        assert r[..i] == t[..i];
        SettleDigit(r[..], i, next);
        assert r[..][..i] == r[..i] && r[..][..i + 1] == r[..i + 1];
        WindowValue(t, r[..], i, fell);
        WindowBits(t, i);
        LostInWindow(r[..], i, Horner(t[i..], 2), fell);
        next := i + 5;
        if fell {
          NoneLeft(r[..], i + 1);
          lost := true;
        }
      } else {
        SettleDigit(r[..], i, next);
        assert r[..][..i] == r[..i] && r[..][..i + 1] == r[..i + 1];
        PeelDigit(r[..], 2, i);
        TimesTwo(Horner(r[i + 1..], 2));
        LostDouble(Horner(r[i + 1..], 2), 256 - i);
      }
      i := i + 1;
    }
    assert r[..256] == r[..];
    NoneLeft(r[..], 256);
    PositivePow(256);
    if lost {
      LostOnlyAbove(n, 256);
    }
  }

  lemma WindowBits(t: seq<int8>, i: nat)
    requires |t| == 256 && i < 256 && t[i] == 1 && forall j :: i <= j < 256 ==> t[j] == 0 || t[j] == 1
    ensures 0 < Horner(t[i..], 2) < Pow2(256 - i)
  {
    hide Horner, Pow2;
    BitsBound(t[i..]);
    BitsBound(t[i + 1..]);
    PeelDigit(t, 2, i);
    TimesTwo(Horner(t[i + 1..], 2));
  }

  lemma NoneLeft(s: seq<int8>, i: nat)
    requires i <= |s| && forall j :: i <= j < |s| ==> s[j] == 0
    ensures Horner(s[i..], 2) == 0 && !Lost(Horner(s[i..], 2), |s| - i)
  {
    ZeroDigits(s[i..], 2);
  }

  lemma PositivePow(n: nat)
    ensures Pow2(n) > 0
  {
  }

  // ----- Radix 16 -----

  lemma {:induction false} NibblesValue(e: seq<int8>, a: seq<uint8>, i: nat)
    requires |e| == 2 * |a| && i <= |a|
    requires forall j :: 0 <= j < |a| ==> e[2 * j] as int == a[j] as int % 16 && e[2 * j + 1] as int == a[j] as int / 16
    ensures Horner(e[2 * i..], 16) == Le(a[i..])
    decreases |a| - i
  {
    if i < |a| {
      NibblesValue(e, a, i + 1);
      PeelDigit(e, 16, 2 * i);
      PeelDigit(e, 16, 2 * i + 1);
      assert a[i..][1..] == a[i + 1..];
    }
  }

  // e[2i] = a[i] & 15; e[2i + 1] = (a[i] >> 4) & 15
  method Nibbles(a: array<uint8>) returns (e: array<int8>)
    requires a.Length == 32 && a[31] <= 127
    ensures fresh(e) && e.Length == 64 && (forall j :: 0 <= j < 64 ==> 0 <= e[j] < 16) && e[63] < 8
    ensures Horner(e[..], 16) == Le(a[..])
  {
    hide Horner, Le;
    e := new int8[64];
    var i := 0;
    while i < 32
      invariant 0 <= i <= 32
      invariant forall j :: 0 <= j < 2 * i ==>
        e[j] as int == if j % 2 == 0 then a[j / 2] as int % 16 else a[j / 2] as int / 16
    {
      e[2 * i] := (a[i] % 16) as int8;
      e[2 * i + 1] := (a[i] / 16 % 16) as int8;
      i := i + 1;
    }
    forall j | 0 <= j < 32
      ensures e[2 * j] as int == a[j] as int % 16 && e[2 * j + 1] as int == a[j] as int / 16
    {
      assert (2 * j) % 2 == 0 && (2 * j) / 2 == j && (2 * j + 1) % 2 == 1 && (2 * j + 1) / 2 == j;
    }
    NibblesValue(e[..], a[..], 0);
    assert e[0..] == e[..] && a[0..] == a[..];
  }

  // Digits between -8 and 8 with the value of a, for any a below 2^255.
  method RadixSixteen(a: array<uint8>) returns (e: array<int8>)
    requires a.Length == 32 && a[31] <= 127
    ensures fresh(e) && e.Length == 64 && (forall j :: 0 <= j < 64 ==> -8 <= e[j] <= 8)
    ensures Horner(e[..], 16) == Le(a[..])
  {
    hide Horner, Le, Times, Weight;
    e := Nibbles(a);
    var carry: int8 := 0;
    ghost var v := Le(a[..]);
    var i := 0;
    NoCarry(Weight(16, 0));
    while i < 63
      invariant 0 <= i <= 63 && 0 <= carry <= 1
      invariant forall j :: 0 <= j < i ==> -8 <= e[j] < 8
      invariant (forall j :: i <= j < 64 ==> 0 <= e[j] < 16) && e[63] < 8
      invariant Horner(e[..], 16) + Times(carry as int, Weight(16, i)) == v
    {
      Put(e, i, e[i] + carry, 16);
      carry := (e[i] + 8) / 16;
      Put(e, i, e[i] - carry * 16, 16);
      CarryUp(carry as int, i);
      i := i + 1;
    }
    Put(e, 63, e[63] + carry, 16);
  }

  lemma NoCarry(w: int)
    ensures Times(0, w) == 0
  {
  }

  lemma CarryUp(c: int, i: nat)
    ensures Times(-(c * 16), Weight(16, i)) == -Times(c, Weight(16, i + 1))
  {
  }
}
