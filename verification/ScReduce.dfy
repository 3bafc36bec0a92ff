// x25519_sc_reduce and sc_muladd of curve25519/boringssl/curve25519.c: arithmetic on scalars
// modulo the order of the base point, on 24 signed limbs of 21 bits. The locals s0 .. s23 are
// the elements of one array. Every addition, product and shift is on int64, so each of them is
// proved not to overflow.
module ScReduce {
  import opened Words
  import opened Bits
  import opened Bytes

  // The group order, 2^252 + 27742317777372353535851937790883648493.
  const L: int := 0x1000000000000000000000000000000014def9dea2f79cd65812631a5cf5d3ed

  // The weight of limb i.
  function W(i: nat): (w: nat)
    ensures w > 0
  {
    if i == 0 then 1 else 0x200000 * W(i - 1)
  }

  lemma WeightZero()
    ensures W(0) == 1
  {
  }

  function Value(s: seq<int64>): int {
    if |s| == 0 then 0 else s[0] as int + 0x200000 * Value(s[1..])
  }

  ghost predicate Within(s: array<int64>, lo: nat, hi: nat, b: int)
    reads s
  {
    forall i :: lo <= i < hi && i < s.Length ==> -b <= s[i] as int <= b
  }

  // Only the limbs in lo .. hi changed.
  twostate predicate Only(s: array<int64>, lo: int, hi: int)
    reads s
  {
    forall i :: 0 <= i < s.Length && !(lo <= i < hi) ==> s[i] == old(s[i])
  }

  lemma {:induction false} ValueUpdate(s: seq<int64>, i: nat, x: int64)
    requires i < |s|
    ensures Value(s[i := x]) == Value(s) + Times(x as int - s[i] as int, W(i))
  {
    var t := s[i := x];
    if i == 0 {
      assert t[1..] == s[1..];
    } else {
      assert t[1..] == s[1..][i - 1 := x];
      ValueUpdate(s[1..], i - 1, x);
    }
  }

  method Put(s: array<int64>, i: nat, x: int64)
    requires i < s.Length
    modifies s
    ensures s[i] == x && Only(s, i, i + 1)
    ensures Value(s[..]) == old(Value(s[..])) + Times(x as int - old(s[i]) as int, W(i))
  {
    ghost var t := s[..];
    s[i] := x;
    assert s[..] == t[i := x];
    ValueUpdate(t, i, x);
  }

  // carry = (s_k + 2^20) >> 21; s_k+1 += carry; s_k -= carry << 21
  method RoundCarry(s: array<int64>, k: nat, ghost b: int, ghost c: int)
    requires k + 1 < s.Length && 0 <= b < 0x4000_0000_0000_0000 && 0 <= c < 0x4000_0000_0000_0000
    requires -b <= s[k] as int <= b && -c <= s[k + 1] as int <= c
    modifies s
    ensures Only(s, k, k + 2) && Value(s[..]) == old(Value(s[..]))
    ensures -0x100000 <= s[k] as int < 0x100000
    ensures -c - b / 0x200000 - 1 <= s[k + 1] as int <= c + b / 0x200000 + 1
  {
    var carry := (s[k] + 0x100000) / 0x200000;
    Put(s, k + 1, s[k + 1] + carry);
    Put(s, k, s[k] - carry * 0x200000);
    CarryCancels(carry as int, W(k));
  }

  lemma CarryCancels(c: int, w: int)
    ensures Times(c, 0x200000 * w) + Times(-c * 0x200000, w) == 0
  {
  }

  // carry = s_k >> 21; s_k+1 += carry; s_k -= carry << 21
  method FloorCarry(s: array<int64>, k: nat, ghost b: int, ghost c: int)
    requires k + 1 < s.Length && 0 <= b < 0x4000_0000_0000_0000 && 0 <= c < 0x4000_0000_0000_0000
    requires -b <= s[k] as int <= b && -c <= s[k + 1] as int <= c
    modifies s
    ensures Only(s, k, k + 2) && Value(s[..]) == old(Value(s[..]))
    ensures 0 <= s[k] < 0x200000
    ensures -c - b / 0x200000 - 1 <= s[k + 1] as int <= c + b / 0x200000 + 1
  {
    var carry := s[k] / 0x200000;
    Put(s, k + 1, s[k + 1] + carry);
    Put(s, k, s[k] - carry * 0x200000);
    CarryCancels(carry as int, W(k));
  }

  // s_i += v * d, for one digit d of 2^252 - L
  method AddMultiple(s: array<int64>, i: nat, v: int64, d: int64, ghost b: int, ghost c: int)
    requires i < s.Length && 0 <= b <= 0x40_0000_0000 && 0 <= c < 0x200_0000_0000_0000
    requires -b <= v as int <= b && -0x100000 <= d <= 0x100000 && -c <= s[i] as int <= c
    modifies s
    ensures Only(s, i, i + 1) && -c - 0x100000 * b <= s[i] as int <= c + 0x100000 * b
    ensures Value(s[..]) == old(Value(s[..])) + Times(v as int * d as int, W(i))
  {
    hide Value, W, Times;
    DigitBound(v as int, d as int, b);
    Put(s, i, s[i] + v * d);
  }

  lemma DigitBound(v: int, d: int, b: int)
    requires -b <= v <= b && -0x100000 <= d <= 0x100000
    ensures -0x100000 * b <= v * d <= 0x100000 * b
  {
    if v >= 0 {
      MulMonotone(v, d, 0x100000);
      MulMonotone(v, -0x100000, d);
    } else {
      MulMonotone(-v, d, 0x100000);
      MulMonotone(-v, -0x100000, d);
      assert v * d == -(-v * d);
    }
  }

  // s_k-12 += s_k * 666643; s_k-11 += s_k * 470296; ... ; s_k = 0
  method Fold(s: array<int64>, k: nat, ghost b: int, ghost c: int)
    requires 12 <= k < s.Length && 0 <= b <= 0x40_0000_0000 && 0 <= c < 0x200_0000_0000_0000
    requires Within(s, k, k + 1, b) && Within(s, k - 12, k - 6, c)
    modifies s
    ensures s[k] == 0 && Within(s, k - 12, k - 6, c + 0x100000 * b)
    ensures forall i :: 0 <= i < s.Length && !(k - 12 <= i < k - 6) && i != k ==> s[i] == old(s[i])
    ensures Value(s[..]) == old(Value(s[..])) - L * Times(old(s[k]) as int, W(k - 12))
  {
    hide Value, W, Times;
    var v := s[k];
    AddMultiple(s, k - 12, v, 666643, b, c);
    AddMultiple(s, k - 11, v, 470296, b, c);
    AddMultiple(s, k - 10, v, 654183, b, c);
    AddMultiple(s, k - 9, v, -997805, b, c);
    AddMultiple(s, k - 8, v, 136657, b, c);
    AddMultiple(s, k - 7, v, -683901, b, c);
    Put(s, k, 0);
    Weights(k - 12);
    FoldSum(v as int, W(k - 12));
  }

  method FoldModL(s: array<int64>, k: nat, ghost b: int, ghost c: int)
    requires 12 <= k < s.Length && 0 <= b <= 0x40_0000_0000 && 0 <= c < 0x200_0000_0000_0000
    requires Within(s, k, k + 1, b) && Within(s, k - 12, k - 6, c)
    modifies s
    ensures s[k] == 0 && Within(s, k - 12, k - 6, c + 0x100000 * b)
    ensures forall i :: 0 <= i < s.Length && !(k - 12 <= i < k - 6) && i != k ==> s[i] == old(s[i])
    ensures Value(s[..]) % L == old(Value(s[..])) % L
  {
    hide *;
    SameResidue(Value(s[..]), -Times(s[k] as int, W(k - 12)));
    Fold(s, k, b, c);
  }

  // Three limbs in a row, the highest first
  method FoldThree(s: array<int64>, k: nat, ghost b: int, ghost c: int)
    requires 14 <= k < s.Length && 0 <= b <= 0x4_0000_0000 && 0 <= c < 0x180_0000_0000_0000
    requires Within(s, k - 2, k + 1, b) && Within(s, k - 14, k - 6, c)
    modifies s
    ensures Within(s, k - 2, k + 1, 0) && Within(s, k - 14, k - 6, c + 0x300000 * b)
    ensures forall i :: 0 <= i < s.Length && !(k - 14 <= i < k - 6) && !(k - 2 <= i <= k) ==> s[i] == old(s[i])
    ensures Value(s[..]) % L == old(Value(s[..])) % L
  {
    hide Value, W, Times;
    FoldModL(s, k, b, c);
    FoldModL(s, k - 1, b, c + 0x100000 * b);
    FoldModL(s, k - 2, b, c + 0x200000 * b);
  }

  lemma SameResidue(v: int, q: int)
    ensures (v + L * q) % L == v % L
  {
    var d, r := v / L, v % L;
    assert v + L * q == L * (d + q) + r;
    DivModUnique(v + L * q, L, d + q, r);
  }

  // 2^252 = L - c, with c in the signed digits of the code.
  lemma FoldSum(v: int, w: int)
    ensures Times(v * 666643, w) + Times(v * 470296, 0x200000 * w) + Times(v * 654183, 0x40000000000 * w)
      + Times(v * -997805, 0x8000000000000000 * w) + Times(v * 136657, 0x1000000000000000000000 * w)
      + Times(v * -683901, 0x200000000000000000000000000 * w)
      + Times(-v, 0x1000000000000000000000000000000000000000000000000000000000000000 * w) == -L * Times(v, w)
  {
    var t := Times(v, w);
    assert Times(v * 666643, w) == 666643 * t;
    assert Times(v * 470296, 0x200000 * w) == 470296 * 0x200000 * t;
    assert Times(v * 654183, 0x40000000000 * w) == 654183 * 0x40000000000 * t;
    assert Times(v * -997805, 0x8000000000000000 * w) == -997805 * 0x8000000000000000 * t;
    assert Times(v * 136657, 0x1000000000000000000000 * w) == 136657 * 0x1000000000000000000000 * t;
    assert Times(v * -683901, 0x200000000000000000000000000 * w) == -683901 * 0x200000000000000000000000000 * t;
    assert Times(-v, 0x1000000000000000000000000000000000000000000000000000000000000000 * w)
      == -0x1000000000000000000000000000000000000000000000000000000000000000 * t;
  }

  lemma Weights(i: nat)
    ensures W(i + 1) == 0x200000 * W(i)
    ensures W(i + 2) == 0x40000000000 * W(i)
    ensures W(i + 3) == 0x8000000000000000 * W(i)
    ensures W(i + 4) == 0x1000000000000000000000 * W(i)
    ensures W(i + 5) == 0x200000000000000000000000000 * W(i)
    ensures W(i + 12) == 0x1000000000000000000000000000000000000000000000000000000000000000 * W(i)
  {
    var v := W(i + 5);
    assert W(i + 6) == 0x200000 * v;
    assert W(i + 7) == 0x200000 * W(i + 6);
    assert W(i + 8) == 0x200000 * W(i + 7);
    assert W(i + 9) == 0x200000 * W(i + 8);
    assert W(i + 10) == 0x200000 * W(i + 9);
    assert W(i + 11) == 0x200000 * W(i + 10);
    assert W(i + 12) == 0x200000 * W(i + 11);
  }

  // Limbs 18 to 23 are folded onto limbs 6 to 16, the highest first.
  method FoldHigh(s: array<int64>)
    requires s.Length == 24 && Within(s, 0, 24, 0x4000_0000)
    modifies s
    ensures Value(s[..]) % L == old(Value(s[..])) % L
    ensures Within(s, 0, 18, 0x20_0000_0000_0000) && Within(s, 18, 24, 0) && Within(s, 0, 6, 0x4000_0000)
      && Within(s, 17, 18, 0x4000_0000)
  {
    hide Value, W, Times;
    FoldThree(s, 23, 0x4000_0000, 0x4000_0000);
    FoldThree(s, 20, 0x4000_0000, 0xc_0000_4000_0000);
  }

  // Limbs of the parity of p stay within b, the others within c.
  ghost predicate Alternating(s: array<int64>, lo: nat, hi: nat, p: nat, b: int, c: int)
    reads s
  {
    forall i :: lo <= i < hi && i < s.Length ==>
      var m := if i % 2 == p % 2 then b else c; -m <= s[i] as int <= m
  }

  // The rounding carries out of limbs k, k + 2, k + 4
  method ThreeCarries(s: array<int64>, k: nat, ghost b: int, ghost c: int)
    requires k + 6 <= s.Length && 0 <= b < 0x1000_0000_0000_0000 && 0 <= c < 0x1000_0000_0000_0000
    requires Alternating(s, k, k + 6, k, b, c)
    modifies s
    ensures Value(s[..]) == old(Value(s[..])) && Only(s, k, k + 6)
    ensures Alternating(s, k, k + 6, k, 0x100000, c + b / 0x200000 + 1)
  {
    hide Value, W, Times;
    RoundCarry(s, k, b, c);
    RoundCarry(s, k + 2, b, c);
    RoundCarry(s, k + 4, b, c);
  }

  // The rounding carries out of limbs k, k + 2, ..., k + 8
  method FiveCarries(s: array<int64>, k: nat, ghost b: int, ghost c: int)
    requires k + 10 <= s.Length && 0 <= b < 0x1000_0000_0000_0000 && 0 <= c < 0x1000_0000_0000_0000
    requires Alternating(s, k, k + 10, k, b, c)
    modifies s
    ensures Value(s[..]) == old(Value(s[..])) && Only(s, k, k + 10)
    ensures Alternating(s, k, k + 10, k, 0x100000, c + b / 0x200000 + 1)
    ensures s[k + 8] < 0x100000
  {
    hide Value, W, Times;
    ThreeCarries(s, k, b, c);
    RoundCarry(s, k + 6, b, c);
    RoundCarry(s, k + 8, b, c);
  }

  // The rounding carries out of limbs k, k + 2, ..., k + 10
  method SixCarries(s: array<int64>, k: nat, ghost b: int, ghost c: int)
    requires k + 12 <= s.Length && 0 <= b < 0x1000_0000_0000_0000 && 0 <= c < 0x1000_0000_0000_0000
    requires Alternating(s, k, k + 12, k, b, c)
    modifies s
    ensures Value(s[..]) == old(Value(s[..])) && Only(s, k, k + 12)
    ensures Alternating(s, k, k + 12, k, 0x100000, c + b / 0x200000 + 1)
    ensures s[k + 10] < 0x100000
  {
    hide Value, W, Times;
    FiveCarries(s, k, b, c);
    RoundCarry(s, k + 10, b, c);
  }

  // carry6, carry8, ..., carry16, then carry7, carry9, ..., carry15
  method CarryMiddle(s: array<int64>)
    requires s.Length == 24
    requires Within(s, 0, 18, 0x20_0000_0000_0000) && Within(s, 17, 18, 0x4000_0000)
    modifies s
    ensures Value(s[..]) == old(Value(s[..])) && Only(s, 6, 18)
    ensures Within(s, 6, 18, 0x4_0000_0000)
  {
    hide Value, W, Times;
    FiveCarries(s, 6, 0x20_0000_0000_0000, 0x20_0000_0000_0000);
    RoundCarry(s, 16, 0x20_0000_0000_0000, 0x4000_0000);
    FiveCarries(s, 7, 0x21_0000_0000_0000, 0x100000);
  }

  // Limbs 12 to 17 are folded onto limbs 0 to 10.
  method FoldMiddle(s: array<int64>)
    requires s.Length == 24 && Within(s, 0, 18, 0x4_0000_0000) && Within(s, 18, 24, 0)
    modifies s
    ensures Value(s[..]) % L == old(Value(s[..])) % L
    ensures Within(s, 0, 12, 0x200_0000_0000_0000) && Within(s, 12, 24, 0)
  {
    hide Value, W, Times;
    FoldThree(s, 17, 0x4_0000_0000, 0x4_0000_0000);
    FoldThree(s, 14, 0x4_0000_0000, 0xc0_0004_0000_0000);
  }

  // carry0, carry2, ..., carry10, then carry1, carry3, ..., carry11
  method CarryLow(s: array<int64>)
    requires s.Length == 24 && Within(s, 0, 12, 0x200_0000_0000_0000) && Within(s, 12, 24, 0)
    modifies s
    ensures Value(s[..]) == old(Value(s[..])) && Only(s, 0, 13)
    ensures Within(s, 0, 13, 0x20_0000_0000) && -0x100000 <= s[11] as int < 0x100000
  {
    hide Value, W, Times;
    SixCarries(s, 0, 0x200_0000_0000_0000, 0x200_0000_0000_0000);
    SixCarries(s, 1, 0x201_0000_0000_0000, 0x100000);
  }

  // Limb 12 is folded once more, which leaves the value within 2^252 of zero.
  method FoldLow(s: array<int64>)
    requires s.Length == 24 && Within(s, 0, 13, 0x20_0000_0000) && Within(s, 13, 24, 0)
    requires -0x100000 <= s[11] as int < 0x100000
    modifies s
    ensures Value(s[..]) % L == old(Value(s[..])) % L
    ensures Within(s, 0, 12, 0x400_0000_0000_0000) && Within(s, 12, 24, 0)
    ensures Within(s, 6, 11, 0x20_0000_0000) && -0x100000 <= s[11] as int < 0x100000
  {
    hide Value, W, Times;
    FoldModL(s, 12, 0x20_0000_0000, 0x20_0000_0000);
  }

  // carry0, carry1, ..., carry5, rounding down
  method FloorLow(s: array<int64>)
    requires s.Length == 24 && Within(s, 0, 12, 0x400_0000_0000_0000)
    modifies s
    ensures Value(s[..]) == old(Value(s[..])) && Only(s, 0, 7)
    ensures forall i :: 0 <= i < 6 ==> 0 <= s[i] < 0x200000
    ensures Within(s, 6, 7, 0x401_0000_0000_0000)
  {
    hide Value, W, Times;
    FloorCarry(s, 0, 0x400_0000_0000_0000, 0x400_0000_0000_0000);
    FloorCarry(s, 1, 0x401_0000_0000_0000, 0x400_0000_0000_0000);
    FloorCarry(s, 2, 0x401_0000_0000_0000, 0x400_0000_0000_0000);
    FloorCarry(s, 3, 0x401_0000_0000_0000, 0x400_0000_0000_0000);
    FloorCarry(s, 4, 0x401_0000_0000_0000, 0x400_0000_0000_0000);
    FloorCarry(s, 5, 0x401_0000_0000_0000, 0x400_0000_0000_0000);
  }

  // carry6, carry7, ..., carry10
  method FloorHigh(s: array<int64>)
    requires s.Length == 24 && Within(s, 7, 12, 0x400_0000_0000_0000) && Within(s, 6, 7, 0x401_0000_0000_0000)
    modifies s
    ensures Value(s[..]) == old(Value(s[..])) && Only(s, 6, 12)
    ensures forall i :: 6 <= i < 11 ==> 0 <= s[i] < 0x200000
    ensures Within(s, 11, 12, 0x401_0000_0000_0000)
  {
    hide Value, W, Times;
    FloorCarry(s, 6, 0x401_0000_0000_0000, 0x400_0000_0000_0000);
    FloorCarry(s, 7, 0x401_0000_0000_0000, 0x400_0000_0000_0000);
    FloorCarry(s, 8, 0x401_0000_0000_0000, 0x400_0000_0000_0000);
    FloorCarry(s, 9, 0x401_0000_0000_0000, 0x400_0000_0000_0000);
    FloorCarry(s, 10, 0x401_0000_0000_0000, 0x400_0000_0000_0000);
  }

  lemma PeelLimb(s: seq<int64>, i: nat)
    requires i < |s|
    ensures Value(s[i..]) == s[i] as int + 0x200000 * Value(s[i + 1..])
  {
    assert s[i..][1..] == s[i + 1..];
  }

  lemma {:induction false} ZeroLimbs(s: seq<int64>)
    requires forall i :: 0 <= i < |s| ==> s[i] == 0
    ensures Value(s) == 0
  {
    if |s| > 0 {
      ZeroLimbs(s[1..]);
    }
  }

  // The value of thirteen limbs, written out.
  lemma ThirteenLimbs(s: seq<int64>)
    requires |s| == 24 && forall i :: 13 <= i < 24 ==> s[i] == 0
    ensures Value(s) == s[0] as int + 0x200000 * s[1] as int
      + 0x40000000000 * s[2] as int + 0x8000000000000000 * s[3] as int + 0x1000000000000000000000 * s[4] as int
      + 0x200000000000000000000000000 * s[5] as int + 0x40000000000000000000000000000000 * s[6] as int
      + 0x8000000000000000000000000000000000000 * s[7] as int
      + 0x1000000000000000000000000000000000000000000 * s[8] as int
      + 0x200000000000000000000000000000000000000000000000 * s[9] as int
      + 0x40000000000000000000000000000000000000000000000000000 * s[10] as int
      + 0x8000000000000000000000000000000000000000000000000000000000 * s[11] as int
      + 0x1000000000000000000000000000000000000000000000000000000000000000 * s[12] as int
  {
    hide Value;
    PeelLimb(s, 0);
    PeelLimb(s, 1);
    PeelLimb(s, 2);
    PeelLimb(s, 3);
    PeelLimb(s, 4);
    PeelLimb(s, 5);
    PeelLimb(s, 6);
    PeelLimb(s, 7);
    PeelLimb(s, 8);
    PeelLimb(s, 9);
    PeelLimb(s, 10);
    PeelLimb(s, 11);
    PeelLimb(s, 12);
    ZeroLimbs(s[13..]);
    assert s[0..] == s;
  }

  // Eleven limbs below 2^21 and a twelfth that may be 2^21 itself.
  ghost predicate Canonical(t: seq<int64>) {
    |t| == 24 && (forall i :: 0 <= i < 11 ==> 0 <= t[i] < 0x200000) && 0 <= t[11] <= 0x200000
    && forall i :: 12 <= i < 24 ==> t[i] == 0
  }

  // carry0 to carry11, rounding down: what goes into limb 12 is 0 or -1.
  method FirstFloor(s: array<int64>)
    requires s.Length == 24 && Within(s, 0, 12, 0x400_0000_0000_0000) && Within(s, 12, 24, 0)
    requires Within(s, 6, 11, 0x20_0000_0000) && -0x100000 <= s[11] as int < 0x100000
    modifies s
    ensures Value(s[..]) == old(Value(s[..])) && Only(s, 0, 13)
    ensures (forall i :: 0 <= i < 12 ==> 0 <= s[i] < 0x200000) && -1 <= s[12] as int <= 0
    ensures 0 <= Value(s[..]) - L * s[12] as int < L
  {
    hide Value, W, Times;
    assert -0x1000000000000000000000000000000000000000000000000000000000000000 < Value(s[..])
      < 0x1000000000000000000000000000000000000000000000000000000000000000 by {
      ThirteenLimbs(s[..]);
    }
    FloorLow(s);
    FloorHigh(s);
    FloorCarry(s, 11, 0x401_0000_0000_0000, 0);
    ThirteenLimbs(s[..]);
  }

  // Limb 12 is folded for the last time and the limbs are brought into range.
  method SecondFloor(s: array<int64>)
    requires s.Length == 24 && Within(s, 13, 24, 0)
    requires (forall i :: 0 <= i < 12 ==> 0 <= s[i] < 0x200000) && -1 <= s[12] as int <= 0
    requires 0 <= Value(s[..]) - L * s[12] as int < L
    modifies s
    ensures s.Length == 24 && Canonical(s[..]) && Value(s[..]) == old(Value(s[..]) - L * s[12] as int)
  {
    hide Value;
    assert W(0) == 1;
    Fold(s, 12, 1, 0x200000);
    FloorLow(s);
    FloorHigh(s);
    ThirteenLimbs(s[..]);
  }

  // Any 24 limbs of up to 30 bits become the digits of their value mod L.
  method ReduceLimbs(s: array<int64>)
    requires s.Length == 24 && Within(s, 0, 24, 0x4000_0000)
    modifies s
    ensures Canonical(s[..]) && Value(s[..]) == old(Value(s[..])) % L && 0 <= Value(s[..]) < L
  {
    hide Value, W, Times;
    FoldHigh(s);
    CarryMiddle(s);
    FoldMiddle(s);
    CarryLow(s);
    FoldLow(s);
    FirstFloor(s);
    SameResidue(Value(s[..]), -(s[12] as int));
    SecondFloor(s);
    DivModUnique(Value(s[..]), L, 0, Value(s[..]));
  }

  // ----- Bytes in and out -----

  function Load3(b: array<uint8>, i: nat): (r: uint64)
    requires i + 3 <= b.Length
    reads b
    ensures r as int == Le(b[i..i + 3])
  {
    Le3(b[i..i + 3]);
    b[i] as uint64 + 0x100 * b[i + 1] as uint64 + 0x10000 * b[i + 2] as uint64
  }

  function Load4(b: array<uint8>, i: nat): (r: uint64)
    requires i + 4 <= b.Length
    reads b
    ensures r as int == Le(b[i..i + 4]) && r < 0x1_0000_0000
  {
    Le4(b[i..i + 4]);
    b[i] as uint64 + 0x100 * b[i + 1] as uint64 + 0x10000 * b[i + 2] as uint64 + 0x1000000 * b[i + 3] as uint64
  }

  // 2097151 & (w >> k)
  function Digit(w: uint64, k: nat): (d: int64)
    requires k < 8
    ensures 0 <= d < 0x200000
  {
    (w as int / Pow2(k) % 0x200000) as int64
  }

  // Digit i of n in base 2^21.
  function DigitOf(n: nat, i: nat): nat { n / W(i) % 0x200000 }

  lemma {:induction false} WeightIsPow2(i: nat)
    ensures W(i) == Pow2(21 * i)
  {
    if i > 0 {
      WeightIsPow2(i - 1);
      SmallPow2();
      Pow2Values();
      Pow2Add(16, 5);
      Pow2Add(21, 21 * (i - 1));
    }
  }

  // The window of n bytes at byte p, shifted down by k, starts with digit i when 8p + k = 21i.
  lemma DigitWindow(b: seq<uint8>, p: nat, n: nat, k: nat, i: nat)
    requires p + n <= |b| && 8 * p + k == 21 * i && k + 21 <= 8 * n
    ensures Le(b[p..p + n]) / Pow2(k) % 0x200000 == DigitOf(Le(b), i)
  {
    hide Le, Pow256, Pow2;
    Window(b, p, n);
    Pow256IsPow2(p);
    Pow256IsPow2(n);
    WeightIsPow2(i);
    Pow2Add(8 * p, k);
    Pow2Add(k, 21);
    Pow2Add(k + 21, 8 * n - k - 21);
    assert Pow2(21) == 0x200000 by { WeightIsPow2(1); }
    ExtractAt(Le(b), Pow256(p), Pow2(k), 0x200000, Pow2(8 * n - k - 21));
  }

  // The eight limbs that start at byte p, a multiple of 21.
  function LoadBlock(b: array<uint8>, p: nat): (t: seq<int64>)
    requires p + 21 <= b.Length
    reads b
    ensures |t| == 8 && forall j :: 0 <= j < 8 ==> 0 <= t[j] < 0x200000
  {
    [Digit(Load3(b, p), 0), Digit(Load4(b, p + 2), 5), Digit(Load3(b, p + 5), 2), Digit(Load4(b, p + 7), 7),
     Digit(Load4(b, p + 10), 4), Digit(Load3(b, p + 13), 1), Digit(Load4(b, p + 15), 6), Digit(Load3(b, p + 18), 3)]
  }

  lemma Digit3(b: array<uint8>, p: nat, k: nat, i: nat)
    requires p + 3 <= b.Length && 8 * p + k == 21 * i && k <= 3
    ensures Digit(Load3(b, p), k) as int == DigitOf(Le(b[..]), i)
  {
    hide DigitOf, Load3, Le;
    assert b[..][p..p + 3] == b[p..p + 3];
    DigitWindow(b[..], p, 3, k, i);
  }

  lemma Digit4(b: array<uint8>, p: nat, k: nat, i: nat)
    requires p + 4 <= b.Length && 8 * p + k == 21 * i && k < 8
    ensures Digit(Load4(b, p), k) as int == DigitOf(Le(b[..]), i)
  {
    hide DigitOf, Load4, Le;
    assert b[..][p..p + 4] == b[p..p + 4];
    DigitWindow(b[..], p, 4, k, i);
  }

  lemma LoadBlockDigits(b: array<uint8>, q: nat)
    requires 21 * q + 21 <= b.Length
    ensures forall j :: 0 <= j < 8 ==> LoadBlock(b, 21 * q)[j] as int == DigitOf(Le(b[..]), 8 * q + j)
  {
    hide Digit, DigitOf, Load3, Load4, Le;
    var p := 21 * q;
    Digit3(b, p, 0, 8 * q);
    Digit4(b, p + 2, 5, 8 * q + 1);
    Digit3(b, p + 5, 2, 8 * q + 2);
    Digit4(b, p + 7, 7, 8 * q + 3);
    Digit4(b, p + 10, 4, 8 * q + 4);
    Digit3(b, p + 13, 1, 8 * q + 5);
    Digit4(b, p + 15, 6, 8 * q + 6);
    Digit3(b, p + 18, 3, 8 * q + 7);
  }

  // A number is the value of its digits when the last one keeps all that is left.
  lemma {:induction false} ValueOfDigits(t: seq<int64>, n: nat, i: nat)
    requires i < |t| && t[|t| - 1] as int == n / W(|t| - 1)
    requires forall j :: 0 <= j < |t| - 1 ==> t[j] as int == DigitOf(n, j)
    ensures Value(t[i..]) == n / W(i)
    decreases |t| - i
  {
    PeelLimb(t, i);
    if i == |t| - 1 {
      assert t[i + 1..] == [];
    } else {
      ValueOfDigits(t, n, i + 1);
      DivDiv(n, W(i), 0x200000);
    }
  }

  lemma TopDigit(b: seq<uint8>, p: nat, k: nat, i: nat)
    requires p <= |b| && 8 * p + k == 21 * i
    ensures Le(b[p..]) / Pow2(k) == Le(b) / W(i)
  {
    Split(b, p);
    Pow256IsPow2(p);
    WeightIsPow2(i);
    Pow2Add(8 * p, k);
    DivDiv(Le(b), Pow256(p), Pow2(k));
  }

  // (uint8_t) (x >> k)
  function LimbByte(x: int64, k: nat): uint8
    requires x >= 0
  {
    (Shr(x as int, k) % 256) as uint8
  }

  // (uint8_t) ((x >> k) | (y << m))
  function TwoLimbByte(x: int64, k: nat, y: int64, m: nat): uint8
    requires x >= 0 && y >= 0
  {
    hide Or, Shr, Shl;
    (Or(Shr(x as int, k), Shl(y as int, m)) % 256) as uint8
  }

  lemma {:induction false} NonNegative(t: seq<int64>, j: nat)
    requires j <= |t| && forall i :: 0 <= i < |t| ==> 0 <= t[i]
    ensures 0 <= Value(t[j..])
    decreases |t| - j
  {
    if j < |t| {
      PeelLimb(t, j);
      NonNegative(t, j + 1);
    }
  }

  // Dividing by the weight of limb j leaves the limbs from j on.
  lemma {:induction false} LimbsFrom(t: seq<int64>, j: nat)
    requires Canonical(t) && j <= 11
    ensures 0 <= Value(t[j..]) && 0 <= Value(t) && Value(t) / W(j) == Value(t[j..])
  {
    NonNegative(t, j);
    NonNegative(t, 0);
    assert t[0..] == t;
    if j > 0 {
      LimbsFrom(t, j - 1);
      PeelLimb(t, j - 1);
      DivDiv(Value(t), W(j - 1), 0x200000);
    }
  }

  // Byte k of the value lies in limb j from bit h on, and may reach into limb j + 1.
  lemma StoredByte(t: seq<int64>, k: nat, j: nat, h: nat)
    requires Canonical(t) && 8 * k == 21 * j + h && h < 21 && j <= 11
    ensures 0 <= Value(t)
    ensures Value(t) / Pow256(k) % 256 == (Shr(t[j] as int, h) + Shl(t[j + 1] as int, 21 - h)) % 256
  {
    hide Value, Pow2, Pow256, W;
    ByteStart(t, k, j, h);
    PeelLimb(t, j);
    PeelLimb(t, j + 1);
    NonNegative(t, j + 2);
    Pow2Add(h, 21 - h);
    Pow2_21();
    ByteAcross(t[j] as int, t[j + 1] as int, Value(t[j + 2..]), Pow2(h), Pow2(21 - h));
  }

  lemma ByteStart(t: seq<int64>, k: nat, j: nat, h: nat)
    requires Canonical(t) && 8 * k == 21 * j + h && j <= 11
    ensures 0 <= Value(t) && Value(t) / Pow256(k) == Value(t[j..]) / Pow2(h)
  {
    hide Value, Pow2, Pow256, W;
    LimbsFrom(t, j);
    Pow256IsPow2(k);
    WeightIsPow2(j);
    Pow2Add(21 * j, h);
    DivDiv(Value(t), W(j), Pow2(h));
  }

  lemma Pow2_21()
    ensures Pow2(21) == 0x200000
  {
    WeightIsPow2(1);
  }

  lemma ByteAcross(x: nat, y: nat, z: nat, s: nat, m: nat)
    requires s * m == 0x200000 && s > 0
    ensures (x + 0x200000 * (y + 0x200000 * z)) / s % 256 == (x / s + y * m) % 256
  {
    var v := x + 0x200000 * (y + 0x200000 * z);
    var q, r := x / s, x % s;
    assert x == s * q + r;
    assert v == s * (q + m * (y + 0x200000 * z)) + r by {
      assert s * (m * (y + 0x200000 * z)) == (s * m) * (y + 0x200000 * z);
    }
    DivModUnique(v, s, q + m * (y + 0x200000 * z), r);
    var e := q + y * m;
    assert q + m * (y + 0x200000 * z) == e + 256 * (0x2000 * (m * z));
    DivModUnique(e + 256 * (0x2000 * (m * z)), 256, e / 256 + 0x2000 * (m * z), e % 256);
  }

  lemma OwnByte(t: seq<int64>, k: nat, j: nat, h: nat)
    requires Canonical(t) && 8 * k == 21 * j + h && h < 21 && j <= 11 && (h <= 13 || j == 11)
    ensures 0 <= Value(t) && Value(t) / Pow256(k) % 256 == LimbByte(t[j], h) as int
  {
    hide Value, Pow256, Shr;
    StoredByte(t, k, j, h);
    DropHighBits(Shr(t[j] as int, h), t[j + 1] as int, 21 - h);
  }

  lemma DropHighBits(x: nat, y: nat, m: nat)
    requires m >= 8 || y == 0
    ensures (x + Shl(y, m)) % 256 == x % 256
  {
    if m < 8 {
      return;
    }
    assert Pow2(m) == 256 * Pow2(m - 8) by {
      Pow2Add(8, m - 8);
      Pow2Values();
    }
    hide Pow2;
    var z := y * Pow2(m - 8);
    assert y * (256 * Pow2(m - 8)) == 256 * z;
    DivModUnique(x + 256 * z, 256, x / 256 + z, x % 256);
  }

  lemma SharedByte(t: seq<int64>, k: nat, j: nat, h: nat)
    requires Canonical(t) && 8 * k == 21 * j + h && h < 21 && j < 11
    ensures 0 <= Value(t) && Value(t) / Pow256(k) % 256 == TwoLimbByte(t[j], h, t[j + 1], 21 - h) as int
  {
    hide Value, Pow256, Or, Shl, Shr;
    StoredByte(t, k, j, h);
    JoinLimbs(t[j] as int, h, t[j + 1] as int);
  }

  lemma JoinLimbs(x: nat, k: nat, y: nat)
    requires x < 0x200000 && k < 21
    ensures Or(Shr(x, k), Shl(y, 21 - k)) == Shr(x, k) + Shl(y, 21 - k)
  {
    hide Or, Pow2;
    Pow2Add(k, 21 - k);
    Pow2_21();
    var q, d := Pow2(k), Shr(x, k);
    assert x >= q * d;
    if d >= Pow2(21 - k) {
      MulMonotone(q, Pow2(21 - k), d);
    }
    OrDisjoint(d, y, 21 - k);
  }

  method StoreBytes0To7(out: array<uint8>, t: seq<int64>)
    requires out.Length >= 32 && Canonical(t)
    modifies out
    ensures 0 <= Value(t)
    ensures forall k :: 0 <= k < 8 ==> out[k] as int == Value(t) / Pow256(k) % 256
    ensures forall k :: 0 <= k < out.Length && !(0 <= k < 8) ==> out[k] == old(out[k])
  {
    hide LimbByte, TwoLimbByte, Value, Pow256;
    out[0] := LimbByte(t[0], 0);
    out[1] := LimbByte(t[0], 8);
    out[2] := TwoLimbByte(t[0], 16, t[1], 5);
    out[3] := LimbByte(t[1], 3);
    out[4] := LimbByte(t[1], 11);
    out[5] := TwoLimbByte(t[1], 19, t[2], 2);
    out[6] := LimbByte(t[2], 6);
    out[7] := TwoLimbByte(t[2], 14, t[3], 7);
    OwnByte(t, 0, 0, 0);
    OwnByte(t, 1, 0, 8);
    SharedByte(t, 2, 0, 16);
    OwnByte(t, 3, 1, 3);
    OwnByte(t, 4, 1, 11);
    SharedByte(t, 5, 1, 19);
    OwnByte(t, 6, 2, 6);
    SharedByte(t, 7, 2, 14);
  }

  method StoreBytes8To15(out: array<uint8>, t: seq<int64>)
    requires out.Length >= 32 && Canonical(t)
    modifies out
    ensures 0 <= Value(t)
    ensures forall k :: 8 <= k < 16 ==> out[k] as int == Value(t) / Pow256(k) % 256
    ensures forall k :: 0 <= k < out.Length && !(8 <= k < 16) ==> out[k] == old(out[k])
  {
    hide LimbByte, TwoLimbByte, Value, Pow256;
    out[8] := LimbByte(t[3], 1);
    out[9] := LimbByte(t[3], 9);
    out[10] := TwoLimbByte(t[3], 17, t[4], 4);
    out[11] := LimbByte(t[4], 4);
    out[12] := LimbByte(t[4], 12);
    out[13] := TwoLimbByte(t[4], 20, t[5], 1);
    out[14] := LimbByte(t[5], 7);
    out[15] := TwoLimbByte(t[5], 15, t[6], 6);
    OwnByte(t, 8, 3, 1);
    OwnByte(t, 9, 3, 9);
    SharedByte(t, 10, 3, 17);
    OwnByte(t, 11, 4, 4);
    OwnByte(t, 12, 4, 12);
    SharedByte(t, 13, 4, 20);
    OwnByte(t, 14, 5, 7);
    SharedByte(t, 15, 5, 15);
  }

  method StoreBytes16To23(out: array<uint8>, t: seq<int64>)
    requires out.Length >= 32 && Canonical(t)
    modifies out
    ensures 0 <= Value(t)
    ensures forall k :: 16 <= k < 24 ==> out[k] as int == Value(t) / Pow256(k) % 256
    ensures forall k :: 0 <= k < out.Length && !(16 <= k < 24) ==> out[k] == old(out[k])
  {
    hide LimbByte, TwoLimbByte, Value, Pow256;
    out[16] := LimbByte(t[6], 2);
    out[17] := LimbByte(t[6], 10);
    out[18] := TwoLimbByte(t[6], 18, t[7], 3);
    out[19] := LimbByte(t[7], 5);
    out[20] := LimbByte(t[7], 13);
    out[21] := LimbByte(t[8], 0);
    out[22] := LimbByte(t[8], 8);
    out[23] := TwoLimbByte(t[8], 16, t[9], 5);
    OwnByte(t, 16, 6, 2);
    OwnByte(t, 17, 6, 10);
    SharedByte(t, 18, 6, 18);
    OwnByte(t, 19, 7, 5);
    OwnByte(t, 20, 7, 13);
    OwnByte(t, 21, 8, 0);
    OwnByte(t, 22, 8, 8);
    SharedByte(t, 23, 8, 16);
  }

  method StoreBytes24To31(out: array<uint8>, t: seq<int64>)
    requires out.Length >= 32 && Canonical(t)
    modifies out
    ensures 0 <= Value(t)
    ensures forall k :: 24 <= k < 32 ==> out[k] as int == Value(t) / Pow256(k) % 256
    ensures forall k :: 0 <= k < out.Length && !(24 <= k < 32) ==> out[k] == old(out[k])
  {
    hide LimbByte, TwoLimbByte, Value, Pow256;
    out[24] := LimbByte(t[9], 3);
    out[25] := LimbByte(t[9], 11);
    out[26] := TwoLimbByte(t[9], 19, t[10], 2);
    out[27] := LimbByte(t[10], 6);
    out[28] := TwoLimbByte(t[10], 14, t[11], 7);
    out[29] := LimbByte(t[11], 1);
    out[30] := LimbByte(t[11], 9);
    out[31] := LimbByte(t[11], 17);
    OwnByte(t, 24, 9, 3);
    OwnByte(t, 25, 9, 11);
    SharedByte(t, 26, 9, 19);
    OwnByte(t, 27, 10, 6);
    SharedByte(t, 28, 10, 14);
    OwnByte(t, 29, 11, 1);
    OwnByte(t, 30, 11, 9);
    OwnByte(t, 31, 11, 17);
  }

  method Store(out: array<uint8>, t: seq<int64>)
    requires out.Length >= 32 && Canonical(t) && Value(t) < L
    modifies out
    ensures Le(out[..32]) == Value(t) && out[32..] == old(out[32..])
  {
    hide Value, Le, Pow256, ToLe;
    StoreBytes0To7(out, t);
    StoreBytes8To15(out, t);
    StoreBytes16To23(out, t);
    StoreBytes24To31(out, t);
    var v := Value(t);
    forall k | 0 <= k < 32 ensures out[..32][k] == ToLe(v, 32)[k] {
      ToLeAt(v, 32, k);
    }
    assert out[..32] == ToLe(v, 32);
    Pow256IsPow2(32);
    Pow2_255();
    LeOfToLe(v, 32);
  }

  // The 64 bytes of s are read as a number and its residue mod L replaces the first 32.
  method X25519ScReduce(s: array<uint8>)
    requires s.Length == 64
    modifies s
    ensures Le(s[..32]) == Le(old(s[..])) % L && s[32..] == old(s[32..])
  {
    hide Value, Le, DigitOf, W, Digit, Load3, Load4, LoadBlock;
    var t0, t8, t16 := LoadBlock(s, 0), LoadBlock(s, 21), LoadBlock(s, 42);
    var limbs := t0 + t8 + t16[..7] + [(Load4(s, 60) / 8) as int64];
    LoadedLimbs(s, limbs);
    var t := new int64[24](i requires 0 <= i < 24 => limbs[i]);
    assert t[..] == limbs;
    ReduceLimbs(t);
    Store(s, t[..]);
  }

  lemma LoadedLimbs(s: array<uint8>, limbs: seq<int64>)
    requires s.Length == 64
    requires limbs == LoadBlock(s, 0) + LoadBlock(s, 21) + LoadBlock(s, 42)[..7] + [(Load4(s, 60) / 8) as int64]
    ensures |limbs| == 24 && Value(limbs) == Le(s[..])
    ensures forall i :: 0 <= i < 24 ==> 0 <= limbs[i] < 0x4000_0000
  {
    hide Value, Le, DigitOf, Digit, Load3, LoadBlock, W;
    WeightZero();
    LoadBlockDigits(s, 0);
    LoadBlockDigits(s, 1);
    LoadBlockDigits(s, 2);
    assert s[60..] == s[60..64] && s[..][60..] == s[60..];
    TopDigit(s[..], 60, 3, 23);
    SmallPow2();
    ValueOfDigits(limbs, Le(s[..]), 0);
    assert limbs[0..] == limbs;
  }
}
