// fexpand and fcontract of curve25519/agl/curve25519-donna.c, between 32 bytes and ten signed
// limbs, and curve25519_donna as a whole.
module Donna32Bytes {
  import opened Words
  import opened Bits
  import opened Bytes
  import opened Field25519
  import opened Limbs26
  import opened Rfc7748
  import opened Donna32
  import opened Donna32Ladder
  import BitVectors
  import DonnaC64

  // The bits of limb i, and the bit at which it starts.
  function Width(i: nat): nat { if i % 2 == 0 then 26 else 25 }

  function Radix(i: nat): int { if i % 2 == 0 then 0x4000000 else 0x2000000 }

  function Offset(i: nat): nat { (51 * i + 1) / 2 }

  lemma {:induction false} WeightIsPow2(i: nat)
    ensures W(i) == Pow2(Offset(i))
  {
    if i > 0 {
      hide Pow2;
      WeightIsPow2(i - 1);
      Pow2Add(Width(i - 1), Offset(i - 1));
      assert Offset(i) == Width(i - 1) + Offset(i - 1);
      RadixIsPow2(i - 1);
    }
  }

  lemma RadixIsPow2(i: nat)
    ensures Radix(i) == Pow2(Width(i)) && W(i + 1) == Radix(i) * W(i)
  {
    Pow2Values();
    SmallPow2();
    Pow2Add(16, 8);
    Pow2Add(24, 1);
    Pow2Add(24, 2);
  }

  // ----- fexpand -----

  // ((input[start] | input[start + 1] << 8 | ...) >> shift) & mask
  function ExpandLimb(input: seq<uint8>, start: nat, shift: nat, i: nat): (l: int64)
    requires start + 4 <= |input|
    ensures 0 <= l as int < Radix(i)
  {
    (GetUint32Le(input, start) as int / Pow2(shift) % Radix(i)) as int64
  }

  lemma LimbDigit(input: seq<uint8>, start: nat, shift: nat, i: nat)
    requires start + 4 <= |input| && 8 * start + shift == Offset(i) && shift + Width(i) <= 32
    ensures ExpandLimb(input, start, shift, i) as int == Le(input) / W(i) % Radix(i)
  {
    hide Le, Pow256, Pow2, W, Offset;
    Window(input, start, 4);
    Pow256IsPow2(start);
    Pow256IsPow2(4);
    WeightIsPow2(i);
    RadixIsPow2(i);
    Pow2Add(8 * start, shift);
    Pow2Add(shift, Width(i));
    Pow2Add(shift + Width(i), 32 - shift - Width(i));
    ExtractAt(Le(input), Pow256(start), Pow2(shift), Radix(i), Pow2(32 - shift - Width(i)));
  }

  method FExpand(output: array<int64>, input: array<uint8>)
    requires output.Length >= 10 && input.Length == 32
    modifies output
    ensures Bounded(output, REDUCED) && Fe(output) == DecodeU(input[..])
  {
    hide ExpandLimb, Sum, Fe, DecodeU;
    var b := input[..];
    var limbs := ExpandLimbs(b);
    CopyLimbs(output, 0, limbs);
    SumFrame(output[..], limbs, 0, 10);
    ExpandedValue(limbs, b);
    FeOf(output);
  }

  lemma FeOf(a: array<int64>)
    requires a.Length >= 10
    ensures Fe(a) == Sum(a[..], 0, 10) % P
  {
  }

  function ExpandLimbs(b: seq<uint8>): (s: seq<int64>)
    requires |b| == 32
    ensures |s| == 10 && Below(s, 0, 10, REDUCED)
  {
    [ExpandLimb(b, 0, 0, 0), ExpandLimb(b, 3, 2, 1), ExpandLimb(b, 6, 3, 2), ExpandLimb(b, 9, 5, 3),
     ExpandLimb(b, 12, 6, 4), ExpandLimb(b, 16, 0, 5), ExpandLimb(b, 19, 1, 6), ExpandLimb(b, 22, 3, 7),
     ExpandLimb(b, 25, 4, 8), ExpandLimb(b, 28, 6, 9)]
  }

  lemma ExpandedValue(s: seq<int64>, b: seq<uint8>)
    requires |b| == 32 && s == ExpandLimbs(b)
    ensures Sum(s, 0, 10) % P == DecodeU(b)
  {
    hide ExpandLimb, Sum, Le, W;
    LimbDigit(b, 0, 0, 0);
    LimbDigit(b, 3, 2, 1);
    LimbDigit(b, 6, 3, 2);
    LimbDigit(b, 9, 5, 3);
    LimbDigit(b, 12, 6, 4);
    LimbDigit(b, 16, 0, 5);
    LimbDigit(b, 19, 1, 6);
    LimbDigit(b, 22, 3, 7);
    LimbDigit(b, 25, 4, 8);
    LimbDigit(b, 28, 6, 9);
    DigitsSum(s, Le(b), 10);
    Weight10();
    Pow2_255();
  }

  lemma {:induction false} DigitsSum(s: seq<int64>, n: nat, i: nat)
    requires i <= |s| && forall j :: 0 <= j < i ==> s[j] as int == n / W(j) % Radix(j)
    ensures Sum(s, 0, i) == n % W(i)
  {
    hide W, Sum;
    if i == 0 {
      EmptySum(s);
    } else {
      DigitsSum(s, n, i - 1);
      SumLast(s, i);
      RadixIsPow2(i - 1);
      NextDigit(n, W(i - 1), Radix(i - 1));
    }
  }

  lemma EmptySum(s: seq<int64>)
    ensures Sum(s, 0, 0) == 0 && W(0) == 1
  {
  }

  lemma SumLast(s: seq<int64>, i: nat)
    requires 0 < i <= |s|
    ensures Sum(s, 0, i) == Sum(s, 0, i - 1) + Times(s[i - 1] as int, W(i - 1))
  {
    SumSplit(s, 0, i - 1, i);
    assert Sum(s, i - 1, i) == Times(s[i - 1] as int, W(i - 1)) + Sum(s, i, i);
  }

  lemma NextDigit(n: nat, w: nat, r: nat)
    requires w > 0 && r > 0
    ensures r * w > 0 && n % (r * w) == n % w + Times(n / w % r, w)
  {
    var q, m := n / w, n % w;
    var q', d := q / r, q % r;
    assert n == w * q + m && q == r * q' + d;
    MulMonotone(w, d, r - 1);
    assert w * (r * q' + d) == (r * w) * q' + w * d;
    assert w * (r - 1) == r * w - w;
    MulMonotone(w, 1, r);
    DivModUnique(n, r * w, q', w * d + m);
  }

  // ----- fcontract -----
  // The s32 copies of the limbs stay within 27 bits and a sign throughout, as the invariants say.

  // -((x & (x >> 31)) >> w): what a negative limb has to borrow from the next one.
  function Borrow(x: int64, i: nat): (c: int64)
    requires -0x800_0000 <= x <= 0x800_0000
    ensures 0 <= c <= 4 && (x >= 0 ==> c == 0) && (-0x200_0000 <= x < 0 ==> c == 1)
    ensures 0 <= x as int + c as int * Radix(i) && (x < 0 ==> x as int + c as int * Radix(i) < Radix(i))
  {
    var negative := if x < 0 then x else 0;
    -(negative / Radix(i) as int64)
  }

  method BorrowStep(input: array<int64>, i: nat)
    requires input.Length == 10 && i < 9 && Below(input[..], i, i + 2, 0x400_0003)
    modifies input
    ensures input[..] == old(input[..])[i := input[i]][i + 1 := input[i + 1]]
    ensures 0 <= input[i] && (if old(input[i]) >= 0 then input[i] == old(input[i]) else input[i] as int < Radix(i))
    ensures input[i] as int == old(input[i]) as int + Borrow(old(input[i]), i) as int * Radix(i)
    ensures input[i + 1] == old(input[i + 1]) - Borrow(old(input[i]), i)
    ensures Sum(input[..], 0, 10) == old(Sum(input[..], 0, 10))
  {
    hide Sum, W, Times;
    var carry := Borrow(input[i], i);
    Put(input, i, input[i] + carry * Radix(i) as int64, 10);
    Put(input, i + 1, input[i + 1] - carry, 10);
    RadixIsPow2(i);
    CarryCancels(-carry as int, Radix(i), W(i));
  }

  // The top limb borrows 2^255 as 19 from limb 0.
  method BorrowTop(input: array<int64>)
    requires input.Length == 10 && Below(input[..], 9, 10, 0x400_0003) && Below(input[..], 0, 1, 0x400_0003)
    modifies input
    ensures input[..] == old(input[..])[9 := input[9]][0 := input[0]]
    ensures 0 <= input[9] && (if old(input[9]) >= 0 then input[9] == old(input[9]) else input[9] as int < Radix(9))
    ensures input[0] == old(input[0]) - 19 * Borrow(old(input[9]), 9)
    ensures Sum(input[..], 0, 10) % P == old(Sum(input[..], 0, 10)) % P
  {
    hide Sum, W, Times;
    ghost var v := Sum(input[..], 0, 10);
    var carry := Borrow(input[9], 9);
    Put(input, 9, input[9] + carry * 0x2000000, 10);
    Put(input, 0, input[0] - carry * 19, 10);
    TopWeights(carry as int);
    Shift(Sum(input[..], 0, 10), v, carry as int);
  }

  lemma TopWeights(c: int)
    ensures Times(c * 0x2000000, W(9)) == (P + 19) * c && Times(-(c * 19), W(0)) == -19 * c
    ensures Times(19 * c, W(0)) == 19 * c
  {
    RadixIsPow2(9);
    Weight10();
  }

  // 0 <= limb <= b from lo on
  ghost predicate NonNegative(s: seq<int64>, lo: nat, hi: nat, b: int64) {
    forall j :: lo <= j < hi && j < |s| ==> 0 <= s[j] <= b
  }

  // One pass of borrowing. In the second pass only limb 0 can be negative, by at most 76.
  method BorrowPass(input: array<int64>, ghost second: bool)
    requires input.Length == 10 && Below(input[..], 0, 10, REDUCED)
    requires second ==> NonNegative(input[..], 1, 10, REDUCED) && -76 <= input[0]
    modifies input
    ensures NonNegative(input[..], 1, 10, REDUCED) && -76 <= input[0] <= REDUCED
    ensures second ==> 0 <= input[0]
    ensures Fe(input) == old(Fe(input))
  {
    hide Sum, Radix;
    ghost var t := input[..];
    var i := 0;
    while i < 9
      invariant 0 <= i <= 9 && NonNegative(input[..], 0, i, REDUCED)
      invariant forall j :: i < j < 10 ==> input[j] == t[j]
      invariant t[i] - 4 <= input[i] <= t[i]
      invariant i == 0 ==> input[0] == t[0]
      invariant i > 0 ==> input[0] as int == t[0] as int + Borrow(t[0], 0) as int * 0x4000000
      invariant second && i > 0 ==> t[i] - 1 <= input[i] && (t[0] >= 0 ==> input[i] == t[i])
      invariant Sum(input[..], 0, 10) == Sum(t, 0, 10)
    {
      RadixValue(i);
      BorrowStep(input, i);
      i := i + 1;
    }
    RadixValue(9);
    BorrowTop(input);
  }

  lemma RadixValue(i: nat)
    ensures Radix(i) == (if i % 2 == 0 then 0x4000000 else 0x2000000)
  {
  }

  // carry = input[i] >> w; input[i] &= mask; input[i + 1] += carry
  method CarryStep(input: array<int64>, i: nat)
    requires input.Length == 10 && i < 9 && 0 <= input[i] <= 0x800_0000 && 0 <= input[i + 1] <= 0x800_0000
    modifies input
    ensures input[..] == old(input[..])[i := input[i]][i + 1 := input[i + 1]]
    ensures input[i] as int == old(input[i]) as int % Radix(i)
    ensures input[i + 1] as int == old(input[i + 1]) as int + old(input[i]) as int / Radix(i)
    ensures Sum(input[..], 0, 10) == old(Sum(input[..], 0, 10))
  {
    hide Sum, W, Times;
    var x := input[i];
    var carry := x / Radix(i) as int64;
    Put(input, i, x % Radix(i) as int64, 10);
    Put(input, i + 1, input[i + 1] + carry, 10);
    RadixIsPow2(i);
    CarryCancels(carry as int, Radix(i), W(i));
  }

  // carry = input[9] >> 25; input[9] &= 0x1ffffff; input[0] += 19 * carry
  method CarryTop(input: array<int64>)
    requires input.Length == 10 && 0 <= input[9] <= 0x800_0000 && 0 <= input[0] <= 0x800_0000
    modifies input
    ensures input[..] == old(input[..])[9 := input[9]][0 := input[0]]
    ensures input[9] == old(input[9]) % 0x2000000 && input[0] == old(input[0]) + 19 * (old(input[9]) / 0x2000000)
    ensures Sum(input[..], 0, 10) % P == old(Sum(input[..], 0, 10)) % P
  {
    hide Sum, W, Times;
    ghost var v := Sum(input[..], 0, 10);
    var carry := input[9] / 0x2000000;
    Put(input, 9, input[9] % 0x2000000, 10);
    Put(input, 0, input[0] + 19 * carry, 10);
    TopWeights(-carry as int);
    Shift(v, Sum(input[..], 0, 10), carry as int);
  }

  // Limbs lo to hi - 1 are digits.
  ghost predicate Digits(s: seq<int64>, lo: nat, hi: nat) {
    forall j :: lo <= j < hi && j < |s| ==> 0 <= s[j] as int < Radix(j)
  }

  // One carry pass. After the first, limb 0 may be a little too large; after the second it is not.
  method CarryPass(input: array<int64>, ghost second: bool)
    requires input.Length == 10
    requires NonNegative(input[..], 1, 10, REDUCED) && 0 <= input[0] <= 0x4000040
    requires if second then Digits(input[..], 1, 10) else input[0] <= REDUCED
    modifies input
    ensures Digits(input[..], 1, 10) && NonNegative(input[..], 1, 10, REDUCED) && 0 <= input[0] <= 0x4000040
    ensures second ==> Digits(input[..], 0, 10)
    ensures Fe(input) == old(Fe(input))
  {
    hide Sum, Radix;
    ghost var t := input[..];
    var i := 0;
    while i < 9
      invariant 0 <= i <= 9 && Digits(input[..], 0, i)
      invariant forall j :: i < j < 10 ==> input[j] == t[j]
      invariant t[i] <= input[i] && input[i] - t[i] <= 3
      invariant i == 0 ==> input[0] == t[0]
      invariant i > 0 ==> input[0] as int == t[0] as int % 0x4000000
      invariant second && i > 0 ==> input[i] - t[i] <= 1 && (t[0] < 0x4000000 ==> input[i] == t[i])
      invariant Sum(input[..], 0, 10) == Sum(t, 0, 10)
    {
      RadixValue(i);
      CarryStep(input, i);
      i := i + 1;
    }
    RadixValue(9);
    RadixValue(0);
    CarryTop(input);
    DigitsSmall(input[..]);
  }

  lemma DigitsSmall(s: seq<int64>)
    requires Digits(s, 1, 10)
    ensures NonNegative(s, 1, 10, REDUCED)
  {
  }

  // s32_eq on the bits of its operands: all ones when they are equal, otherwise zero.
  function S32Eq(a: bv32, b: bv32): (r: bv32)
    ensures r == if a == b then 0xffff_ffff else 0
  {
    var x := !(a ^ b);
    var x := x & (x << 16);
    var x := x & (x << 8);
    var x := x & (x << 4);
    var x := x & (x << 2);
    var x := x & (x << 1);
    if x >> 31 == 1 then 0xffff_ffff else 0
  }

  // s32_eq on numbers.
  function EqMask(a: int64, b: int64): (m: nat)
    requires 0 <= a < 0x8000_0000 && 0 <= b < 0x8000_0000
    ensures m == if a == b then 0xffff_ffff else 0
  {
    BitVectors.BitsOfWord(a as int);
    BitVectors.BitsOfWord(b as int);
    S32Eq(a as int as bv32, b as int as bv32) as nat
  }

  // ~((a - b) >> 31)
  function GteMask(a: int64, b: int64): (m: nat)
    requires 0 <= a < 0x8000_0000 && 0 <= b < 0x8000_0000
    ensures m == if a >= b then 0xffff_ffff else 0
  {
    Bits32(-1 - (a - b) / 0x8000_0000)
  }

  lemma MaskedAnd(m: nat, x: nat)
    requires (m == 0 || m == 0xffff_ffff) && x < 0x1_0000_0000
    ensures And(m, x) == if m == 0 then 0 else x
  {
    Pow2Values();
    AndAllOnes(x, 32);
  }

  // mask & x for a limb mask x
  function Masked(m: nat, x: int64): (r: int64)
    requires (m == 0 || m == 0xffff_ffff) && 0 <= x < 0x8000_0000
    ensures r == if m == 0 then 0 else x
  {
    MaskedAnd(m, x as int);
    And(m, x as int) as int64
  }

  // Every limb from lo on is at its largest.
  ghost predicate AllOnes(s: seq<int64>, lo: nat) {
    forall j :: lo <= j < 10 && j < |s| ==> s[j] as int == Radix(j) - 1
  }

  // The limbs from lo on are below 2^255, by one unit if all are ones and by two otherwise.
  lemma {:induction false} DigitsBound(s: seq<int64>, lo: nat)
    requires |s| == 10 && lo <= 10 && Digits(s, lo, 10)
    ensures 0 <= Sum(s, lo, 10) <= W(10) - W(lo)
    ensures AllOnes(s, lo) ==> Sum(s, lo, 10) == W(10) - W(lo)
    ensures !AllOnes(s, lo) ==> Sum(s, lo, 10) <= W(10) - 2 * W(lo)
    decreases 10 - lo
  {
    hide W;
    if lo < 10 {
      DigitsBound(s, lo + 1);
      RadixIsPow2(lo);
      DigitTimes(s[lo] as int, Radix(lo), W(lo));
      assert AllOnes(s, lo) <==> s[lo] as int == Radix(lo) - 1 && AllOnes(s, lo + 1);
    }
  }

  lemma DigitTimes(d: int, r: int, w: int)
    requires 0 <= d < r && w > 0 && r >= 2
    ensures 0 <= Times(d, w) <= r * w - w && r * w >= 2 * w
    ensures d == r - 1 ==> Times(d, w) == r * w - w
    ensures d < r - 1 ==> Times(d, w) <= r * w - 2 * w
  {
    MulMonotone(w, d, r - 1);
    MulMonotone(w, 2, r);
    if d < r - 1 {
      MulMonotone(w, d, r - 2);
    }
  }

  // mask = s32_gte(input[0], 0x3ffffed); mask &= s32_eq(input[i], ...): all ones from p on.
  method PrimeMask(input: array<int64>) returns (mask: nat)
    requires input.Length == 10 && Digits(input[..], 0, 10)
    ensures mask == if input[0] >= 0x3ffffed && AllOnes(input[..], 1) then 0xffff_ffff else 0
  {
    hide And, GteMask, EqMask;
    RadixValue(0);
    mask := GteMask(input[0], 0x3ffffed);
    var i := 1;
    while i < 10
      invariant 1 <= i <= 10
      invariant mask == if input[0] >= 0x3ffffed
        && (forall j :: 1 <= j < i ==> input[j] as int == Radix(j) - 1) then 0xffff_ffff else 0
    {
      var m := EqMask(input[i], if i % 2 == 1 then 0x1ffffff else 0x3ffffff);
      MaskedAnd(mask, m);
      mask := And(mask, m);
      i := i + 1;
    }
  }

  // input[i] -= mask & (the limb of p)
  method SubtractPrime(input: array<int64>, mask: nat)
    requires input.Length == 10 && Digits(input[..], 0, 10)
    requires mask == if input[0] >= 0x3ffffed && AllOnes(input[..], 1) then 0xffff_ffff else 0
    modifies input
    ensures Digits(input[..], 0, 10) && Sum(input[..], 0, 10) == old(Sum(input[..], 0, 10)) % P
  {
    hide Sum, W, And;
    ghost var t := input[..];
    DigitsBound(t, 1);
    FirstAndRest(t);
    input[0] := input[0] - Masked(mask, 0x3ffffed);
    var i := 1;
    while i < 10
      invariant 1 <= i <= 10 && input[0] == t[0] - (if mask == 0 then 0 else 0x3ffffed)
      invariant forall j :: 1 <= j < i ==> input[j] == if mask == 0 then t[j] else 0
      invariant forall j :: i <= j < 10 ==> input[j] == t[j]
    {
      input[i] := input[i] - Masked(mask, if i % 2 == 1 then 0x1ffffff else 0x3ffffff);
      i := i + 1;
    }
    FirstAndRest(input[..]);
    if mask == 0 {
      SumFrame(input[..], t, 1, 10);
      DivModUnique(Sum(t, 0, 10), P, 0, Sum(t, 0, 10));
    } else {
      ZeroTail(input[..], 1);
      DivModUnique(Sum(t, 0, 10), P, 1, Sum(t, 0, 10) - P);
    }
  }

  lemma FirstAndRest(s: seq<int64>)
    requires |s| == 10
    ensures Sum(s, 0, 10) == s[0] as int + Sum(s, 1, 10) && W(1) == 0x4000000 && W(10) == P + 19
  {
    Weight10();
    assert W(0) == 1 && Times(s[0] as int, 1) == s[0] as int;
  }

  // All of fcontract up to the bytes: the ten digits of the canonical residue.
  method Freeze(input: array<int64>)
    requires input.Length == 10 && Bounded(input, REDUCED)
    modifies input
    ensures Digits(input[..], 0, 10) && Sum(input[..], 0, 10) == old(Fe(input))
  {
    hide Sum, Radix;
    BorrowPass(input, false);
    BorrowPass(input, true);
    BorrowStep(input, 0);
    CarryPass(input, false);
    CarryPass(input, true);
    var mask := PrimeMask(input);
    SubtractPrime(input, mask);
  }

  // output[s] |= x & 0xff; output[s + 1] = (x >> 8) & 0xff; ... for limb i shifted into place: the
  // bytes up to s + 3 now hold the limbs up to i.
  method PlaceLimb(output: array<uint8>, x: int64, s: nat, ghost limbs: seq<int64>, ghost i: nat, ghost shift: nat)
    requires i < 10 && |limbs| == 10 && Digits(limbs, 0, 10) && s + 4 <= output.Length
    requires 8 * s + shift == Offset(i) && shift <= 6 && x as int == Shl(limbs[i] as int, shift)
    requires Le(output[..s + 1]) == Sum(limbs, 0, i)
    modifies output
    ensures Le(output[..s + 4]) == Sum(limbs, 0, i + 1)
    ensures forall j :: 0 <= j < output.Length && !(s <= j < s + 4) ==> output[j] == old(output[j])
  {
    hide Le, Sum, Or, Shl, W, Offset;
    ghost var before, top := output[..s], output[s];
    assert output[..s + 1] == before + [top];
    ShiftedLimb(limbs, i, shift);
    LowBitsFree(before, top, s, limbs, i, shift, x as nat);
    output[s] := Or(output[s] as int, x as int % 256) as uint8;
    output[s + 1] := (x / 0x100 % 256) as uint8;
    output[s + 2] := (x / 0x10000 % 256) as uint8;
    output[s + 3] := (x / 0x1000000 % 256) as uint8;
    assert output[..s + 4] == before + output[s..s + 4];
    Placed(before, top, output[s..s + 4], s, limbs, i, shift, x as nat);
  }

  lemma ShiftedLimb(limbs: seq<int64>, i: nat, shift: nat)
    requires i < 10 && |limbs| == 10 && Digits(limbs, 0, 10) && shift <= 6
    ensures 0 <= Shl(limbs[i] as int, shift) < 0x1_0000_0000 && Shl(limbs[i] as int, shift) % Pow2(shift) == 0
  {
    SmallPow2();
    var l, p := limbs[i] as int, Pow2(shift);
    MulMonotone(l, p, 64);
    MulMonotone(l, 1, p);
    assert l * p == p * l;
    DivModUnique(l * p, p, l, 0);
  }

  // What the earlier limbs left in byte s is below the bits of this one.
  lemma LowBitsFree(before: seq<uint8>, top: uint8, s: nat, limbs: seq<int64>, i: nat, shift: nat, x: nat)
    requires |before| == s && i < 10 && |limbs| == 10 && Digits(limbs, 0, 10)
    requires 8 * s + shift == Offset(i) && shift <= 6 && x % Pow2(shift) == 0
    requires Le(before + [top]) == Sum(limbs, 0, i)
    ensures top as int < Pow2(shift) && Or(top as int, x % 256) == top as int + x % 256 < 256
  {
    hide Le, Sum, Or, W, Pow2, Pow256, Offset;
    LeConcat(before, [top]);
    OneByteValue(top);
    DigitsBelow(limbs, i);
    WeightIsPow2(i);
    Pow256IsPow2(s);
    Pow2Add(8 * s, shift);
    SmallTop(Pow256(s), Pow2(shift), top as int, Le(before));
    OrLow(top as int, x, shift);
  }

  lemma SmallTop(a: nat, b: nat, t: nat, l: nat)
    requires a > 0 && l + a * t < a * b
    ensures t < b
  {
    if t >= b {
      MulMonotone(a, b, t);
    }
  }

  lemma OrLow(top: nat, x: nat, shift: nat)
    requires top < Pow2(shift) && shift <= 6 && x % Pow2(shift) == 0
    ensures Or(top, x % 256) == top + x % 256 < 256
  {
    hide Or, Pow2;
    var p := Pow2(shift);
    Pow2Add(shift, 8 - shift);
    SmallPow2();
    Pow2Values();
    LowByte(x, p, Pow2(8 - shift));
    OrDisjoint(top, x % 256 / p, shift);
  }

  // The low byte of a multiple of p is p times something below 256 / p.
  lemma LowByte(x: nat, p: nat, q: nat)
    requires p > 0 && p * q == 256 && x % p == 0
    ensures x % 256 == x % 256 / p * p && x % 256 <= 256 - p
  {
    var d, m := x / p, x % 256;
    assert x == p * d;
    var e, r := d / q, d % q;
    assert d == q * e + r && p * (q * e + r) == 256 * e + p * r by {
      assert p * (q * e) == (p * q) * e;
    }
    MulMonotone(p, r, q - 1);
    assert p * (q - 1) == 256 - p;
    DivModUnique(x, 256, e, p * r);
    DivModUnique(p * r, p, r, 0);
    assert r * p == p * r;
  }

  lemma OneByteValue(b: uint8)
    ensures Le([b]) == b as int
  {
    assert Le([b]) == b as int + 256 * Le([]);
  }

  lemma {:induction false} DigitsBelow(s: seq<int64>, i: nat)
    requires |s| == 10 && i <= 10 && Digits(s, 0, 10)
    ensures 0 <= Sum(s, 0, i) < W(i)
  {
    hide W, Sum;
    if i == 0 {
      EmptySum(s);
    } else {
      DigitsBelow(s, i - 1);
      SumLast(s, i);
      RadixIsPow2(i - 1);
      RadixValue(i - 1);
      DigitTimes(s[i - 1] as int, Radix(i - 1), W(i - 1));
    }
  }

  lemma Placed(before: seq<uint8>, top: uint8, now: seq<uint8>, s: nat, limbs: seq<int64>, i: nat, shift: nat, x: nat)
    requires |before| == s && |now| == 4 && i < 10 && |limbs| == 10 && Digits(limbs, 0, 10) && x < 0x1_0000_0000
    requires 8 * s + shift == Offset(i) && x == Shl(limbs[i] as int, shift) && Le(before + [top]) == Sum(limbs, 0, i)
    requires now[0] as int == top as int + x % 256 && now[1] as int == x / 0x100 % 256
    requires now[2] as int == x / 0x10000 % 256 && now[3] as int == x / 0x1000000 % 256
    ensures Le(before + now) == Sum(limbs, 0, i + 1)
  {
    hide Le, Sum, W, Pow2, Pow256, Offset, Times, Shl;
    LeConcat(before, [top]);
    OneByteValue(top);
    LeConcat(before, now);
    Le4(now);
    FourBytes(x);
    SumLast(limbs, i + 1);
    WeightIsPow2(i);
    Pow256IsPow2(s);
    Pow2Add(8 * s, shift);
    ShiftTimes(limbs[i] as int, shift);
    PlaceSum(Pow256(s), Pow2(shift), limbs[i] as int, top as int, Le(before));
  }

  lemma ShiftTimes(l: nat, shift: nat)
    ensures Shl(l, shift) == Times(l, Pow2(shift))
  {
  }

  lemma PlaceSum(a: int, b: int, l: int, t: int, v: int)
    ensures v + a * (t + Times(l, b)) == v + a * t + Times(l, a * b)
  {
    assert a * (t + l * b) == a * t + a * (l * b);
    assert a * (l * b) == l * (a * b);
  }

  lemma FourBytes(x: nat)
    requires x < 0x1_0000_0000
    ensures x == x % 256 + 0x100 * (x / 0x100 % 256) + 0x10000 * (x / 0x10000 % 256) + 0x1000000 * (x / 0x1000000 % 256)
  {
  }

  // input[i] <<= shift
  function Shifted(limb: int64, i: nat, shift: nat): (x: int64)
    requires 0 <= limb as int < Radix(i) && shift <= 6
    ensures x as int == Shl(limb as int, shift)
  {
    ShiftedLimb32(limb as int, shift);
    Shl(limb as int, shift) as int64
  }

  lemma ShiftedLimb32(l: nat, shift: nat)
    requires l < 0x4000000 && shift <= 6
    ensures Shl(l, shift) < 0x1_0000_0000
  {
    SmallPow2();
    MulMonotone(l, Pow2(shift), 64);
  }

  // Limbs 0 to 4 fill bytes 0 to 15, and byte 16 waits for limb 5.
  method PlaceLow(output: array<uint8>, limbs: seq<int64>)
    requires output.Length == 32 && |limbs| == 10 && Digits(limbs, 0, 10)
    modifies output
    ensures Le(output[..17]) == Sum(limbs, 0, 5)
  {
    hide Le, Sum, Shifted, Digits, Radix;
    DigitAt(limbs);
    output[0] := 0;
    output[16] := 0;
    NoLimbs(output[..1], limbs);
    PlaceLimb(output, Shifted(limbs[0], 0, 0), 0, limbs, 0, 0);
    PlaceLimb(output, Shifted(limbs[1], 1, 2), 3, limbs, 1, 2);
    PlaceLimb(output, Shifted(limbs[2], 2, 3), 6, limbs, 2, 3);
    PlaceLimb(output, Shifted(limbs[3], 3, 5), 9, limbs, 3, 5);
    PlaceLimb(output, Shifted(limbs[4], 4, 6), 12, limbs, 4, 6);
    AppendZero(output[..16]);
    assert output[..17] == output[..16] + [0];
  }

  method PlaceHigh(output: array<uint8>, limbs: seq<int64>)
    requires output.Length == 32 && |limbs| == 10 && Digits(limbs, 0, 10) && Le(output[..17]) == Sum(limbs, 0, 5)
    modifies output
    ensures Le(output[..32]) == Sum(limbs, 0, 10)
  {
    hide Le, Sum, Shifted, Digits, Radix;
    DigitAt(limbs);
    PlaceLimb(output, Shifted(limbs[5], 5, 0), 16, limbs, 5, 0);
    PlaceLimb(output, Shifted(limbs[6], 6, 1), 19, limbs, 6, 1);
    PlaceLimb(output, Shifted(limbs[7], 7, 3), 22, limbs, 7, 3);
    PlaceLimb(output, Shifted(limbs[8], 8, 4), 25, limbs, 8, 4);
    PlaceLimb(output, Shifted(limbs[9], 9, 6), 28, limbs, 9, 6);
  }

  lemma DigitAt(limbs: seq<int64>)
    requires |limbs| == 10 && Digits(limbs, 0, 10)
    ensures forall i :: 0 <= i < 10 ==> 0 <= limbs[i] as int < Radix(i)
  {
  }

  lemma NoLimbs(b: seq<uint8>, limbs: seq<int64>)
    requires |b| == 1 && b[0] == 0
    ensures Le(b) == Sum(limbs, 0, 0)
  {
    assert b == [0];
    OneByteValue(0);
  }

  lemma AppendZero(b: seq<uint8>)
    ensures Le(b + [0]) == Le(b)
  {
    LeConcat(b, [0]);
    OneByteValue(0);
  }

  // The unique little-endian form of the element below p, for all limbs within 26 bits and a sign.
  method FContract(output: array<uint8>, inputLimbs: array<int64>)
    requires output.Length == 32 && inputLimbs.Length >= 10 && Bounded(inputLimbs, REDUCED)
    modifies output
    ensures Le(output[..]) == Fe(inputLimbs)
  {
    hide *;
    var input := new int64[10];
    Copy(input, inputLimbs);
    Freeze(input);
    PlaceLow(output, input[..]);
    PlaceHigh(output, input[..]);
    assert output[..32] == output[..];
  }

  method Curve25519Donna(mypublic: array<uint8>, secret: array<uint8>, basepoint: array<uint8>)
    requires mypublic.Length == secret.Length == basepoint.Length == 32
    modifies mypublic
    ensures Le(mypublic[..])
      == old(Affine(Eager(DecodeU(basepoint[..]), DecodeScalar(secret[..]), 256, 0)))
  {
    hide *;
    ghost var k, u := DecodeScalar(secret[..]), DecodeU(basepoint[..]);
    var bp, x, z, zmone := new int64[10], new int64[10], new int64[10], new int64[10];
    var e := CopyBytes(secret);
    Clamp(e);
    FExpand(bp, basepoint);
    CMult(x, z, e, bp);
    CRecip(zmone, z);
    Widen(x);
    Widen(zmone);
    FMul(z, x, zmone);
    FContract(mypublic, z);
    DonnaC64.AffineOf(Eager(u, k, 256, 0));
  }

  // Both implementations of curve25519_donna write the same 32 bytes for every secret and point.
  method BothDonnas(secret: array<uint8>, basepoint: array<uint8>) returns (p32: array<uint8>, p64: array<uint8>)
    requires secret.Length == basepoint.Length == 32
    ensures p32.Length == p64.Length == 32 && p32[..] == p64[..]
    ensures Le(p64[..]) == Affine(Eager(DecodeU(basepoint[..]), DecodeScalar(secret[..]), 256, 0))
  {
    hide *;
    p32, p64 := new uint8[32], new uint8[32];
    Curve25519Donna(p32, secret, basepoint);
    DonnaC64.Curve25519Donna(p64, secret, basepoint);
    LeInjective(p32[..], p64[..]);
  }
}
